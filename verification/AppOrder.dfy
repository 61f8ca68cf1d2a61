/** Reordering the application list by a request that names some of its uuids. */
module AppOrder {

  import opened Wrappers

  /** An entry of the list: its uuid, if it is an object with a string uuid, and everything else. */
  datatype App = App(uuid: Option<string>, rest: string)

  /** An entry of the request is a string or, as `None`, anything else. */
  type Request = seq<Option<string>>

  predicate Named(app: App, uuid: string) { app.uuid == Some(uuid) }

  /** Position of the first application with this uuid, or the length of the list. */
  function FirstWith(apps: seq<App>, uuid: string): (k: nat)
    ensures k <= |apps|
    ensures k < |apps| ==> Named(apps[k], uuid)
    ensures forall i | 0 <= i < k :: !Named(apps[i], uuid)
  {
    if apps == [] || Named(apps[0], uuid) then 0 else 1 + FirstWith(apps[1..], uuid)
  }

  function Without(apps: seq<App>, k: nat): seq<App>
    requires k < |apps|
  {
    apps[..k] + apps[k + 1..]
  }

  /** Position of the application that one entry of the request takes. */
  function Position(apps: seq<App>, entry: Option<string>): (k: nat)
    ensures k <= |apps|
    ensures k < |apps| ==> entry.Some? && apps[k].uuid == entry
  {
    if entry.None? then |apps| else FirstWith(apps, entry.value)
  }

  /** The list without the application that the entry takes. */
  function After(apps: seq<App>, entry: Option<string>): (after: seq<App>)
    ensures |after| == if Position(apps, entry) == |apps| then |apps| else |apps| - 1
  {
    var k := Position(apps, entry);
    if k == |apps| then apps else Without(apps, k)
  }

  /** The named applications in request order, and the applications left over. */
  function Select(apps: seq<App>, order: Request): (r: (seq<App>, seq<App>)) {
    if order == [] then ([], apps)
    else
      var k := Position(apps, order[0]);
      var (picked, left) := Select(After(apps, order[0]), order[1..]);
      ((if k == |apps| then [] else [apps[k]]) + picked, left)
  }

  function Reorder(apps: seq<App>, order: Request): seq<App> {
    var (picked, left) := Select(apps, order);
    picked + left
  }

  //////////////////// The algorithm with its marks ////////////////////

  /** The applications not marked as moved, in order. */
  function Unmarked(apps: seq<App>, moved: seq<bool>): (r: seq<App>)
    requires |apps| == |moved|
    ensures |r| <= |apps|
  {
    if apps == [] then []
    else (if moved[0] then [] else [apps[0]]) + Unmarked(apps[1..], moved[1..])
  }

  lemma {:induction false} UnmarkedSplits(apps: seq<App>, moved: seq<bool>, k: nat)
    requires |apps| == |moved| && k <= |apps|
    ensures Unmarked(apps, moved) == Unmarked(apps[..k], moved[..k]) + Unmarked(apps[k..], moved[k..])
  {
    hide Unmarked;
    if k == 0 {
      UnmarkedOfNone();
      assert apps[k..] == apps && moved[k..] == moved && apps[..k] == [] && moved[..k] == [];
    } else {
      UnmarkedHead(apps, moved);
      UnmarkedHead(apps[..k], moved[..k]);
      UnmarkedSplits(apps[1..], moved[1..], k - 1);
      assert apps[..k][1..] == apps[1..][..k - 1] && moved[..k][1..] == moved[1..][..k - 1];
      assert apps[1..][k - 1..] == apps[k..] && moved[1..][k - 1..] == moved[k..];
    }
  }

  lemma UnmarkedOfNone()
    ensures Unmarked([], []) == []
  {
  }

  /** Searching past an unmatched prefix. */
  lemma {:induction false} FirstWithAfter(a: seq<App>, b: seq<App>, uuid: string)
    requires forall i | 0 <= i < |a| :: !Named(a[i], uuid)
    ensures FirstWith(a + b, uuid) == |a| + FirstWith(b, uuid)
  {
    if a == [] {
      assert a + b == b;
    } else {
      assert (a + b)[1..] == a[1..] + b;
      FirstWithAfter(a[1..], b, uuid);
    }
  }

  /** The next unmarked application with the uuid, found by scanning the marked list. */
  lemma ScanIsFirst(apps: seq<App>, moved: seq<bool>, k: nat, uuid: string)
    requires |apps| == |moved| && k < |apps| && !moved[k] && Named(apps[k], uuid)
    requires forall i | 0 <= i < k :: moved[i] || !Named(apps[i], uuid)
    ensures var u := Unmarked(apps, moved);
            var i := FirstWith(u, uuid);
            && i < |u| && u[i] == apps[k] && Without(u, i) == Unmarked(apps, moved[k := true])
  {
    hide Unmarked, FirstWith;
    var a, c := Unmarked(apps[..k], moved[..k]), Unmarked(apps[k + 1..], moved[k + 1..]);
    UnmarkedAround(apps, moved, k);
    UnmarkedAround(apps, moved[k := true], k);
    assert moved[k := true][..k] == moved[..k] && moved[k := true][k + 1..] == moved[k + 1..];
    UnmarkedHas(apps[..k], moved[..k], uuid);
    FirstInMiddle(a, apps[k], c, uuid);
  }

  lemma FirstInMiddle(a: seq<App>, app: App, c: seq<App>, uuid: string)
    requires (forall i | 0 <= i < |a| :: !Named(a[i], uuid)) && Named(app, uuid)
    ensures var u := a + ([app] + c);
            FirstWith(u, uuid) == |a| < |u| && u[|a|] == app && Without(u, |a|) == a + c
  {
    FirstWithAfter(a, [app] + c, uuid);
    assert ([app] + c)[0] == app;
  }

  lemma UnmarkedAround(apps: seq<App>, moved: seq<bool>, k: nat)
    requires |apps| == |moved| && k < |apps|
    ensures var (a, c) := (Unmarked(apps[..k], moved[..k]), Unmarked(apps[k + 1..], moved[k + 1..]));
            Unmarked(apps, moved) == if moved[k] then a + c else a + ([apps[k]] + c)
  {
    hide Unmarked;
    UnmarkedSplits(apps, moved, k);
    UnmarkedHead(apps[k..], moved[k..]);
    assert apps[k..][1..] == apps[k + 1..] && moved[k..][1..] == moved[k + 1..];
  }

  lemma UnmarkedHead(apps: seq<App>, moved: seq<bool>)
    requires |apps| == |moved| > 0
    ensures Unmarked(apps, moved) == if moved[0] then Unmarked(apps[1..], moved[1..]) else [apps[0]] + Unmarked(apps[1..], moved[1..])
  {
  }

  lemma NoneLeft(apps: seq<App>, moved: seq<bool>, uuid: string)
    requires |apps| == |moved|
    requires forall i | 0 <= i < |apps| :: moved[i] || !Named(apps[i], uuid)
    ensures FirstWith(Unmarked(apps, moved), uuid) == |Unmarked(apps, moved)|
  {
    UnmarkedHas(apps, moved, uuid);
  }

  lemma {:induction false} UnmarkedHas(apps: seq<App>, moved: seq<bool>, uuid: string)
    requires |apps| == |moved|
    requires forall i | 0 <= i < |apps| :: moved[i] || !Named(apps[i], uuid)
    ensures forall j | 0 <= j < |Unmarked(apps, moved)| :: !Named(Unmarked(apps, moved)[j], uuid)
  {
    if apps != [] {
      assert forall i | 0 <= i < |apps[1..]| :: apps[1..][i] == apps[i + 1] && moved[1..][i] == moved[i + 1];
      UnmarkedHas(apps[1..], moved[1..], uuid);
    }
  }

  function Prepend(a: seq<App>, r: (seq<App>, seq<App>)): (seq<App>, seq<App>) { (a + r.0, r.1) }

  method ReorderApps(apps: seq<App>, order: Request) returns (reordered: seq<App>)
    ensures reordered == Reorder(apps, order)
  {
    hide Select, Unmarked, FirstWith;
    reordered := [];
    var itemMoved := new bool[|apps|](_ => false);
    NothingMarked(apps, itemMoved[..]);
    assert order[0..] == order && [] + Select(apps, order).0 == Select(apps, order).0;
    for n := 0 to |order|
      invariant itemMoved.Length == |apps|
      invariant Select(apps, order) == Prepend(reordered, Select(Unmarked(apps, itemMoved[..]), order[n..]))
    {
      SelectUnfolds(Unmarked(apps, itemMoved[..]), order, n);
      if order[n].None? {
        continue;
      }
      var target := order[n].value;
      var i := 0;
      while i < |apps| && (itemMoved[i] || !Named(apps[i], target))
        invariant i <= |apps|
        invariant forall j | 0 <= j < i :: itemMoved[j] || !Named(apps[j], target)
      {
        i := i + 1;
      }
      if i == |apps| {
        NoneLeft(apps, itemMoved[..], target);
      } else {
        ScanIsFirst(apps, itemMoved[..], i, target);
        PrependTwice(reordered, apps[i], Select(Unmarked(apps, itemMoved[..][i := true]), order[n + 1..]));
        reordered := reordered + [apps[i]];
        itemMoved[i] := true;
      }
    }
    reordered := AppendUnmoved(apps, itemMoved, reordered);
    assert order[|order|..] == [];
    SelectNothing(Unmarked(apps, itemMoved[..]));
  }

  lemma SelectNothing(apps: seq<App>)
    ensures Select(apps, []) == ([], apps)
  {
  }

  lemma SelectUnfolds(apps: seq<App>, order: Request, n: nat)
    requires n < |order|
    ensures var k := Position(apps, order[n]);
            var rest := Select(After(apps, order[n]), order[n + 1..]);
            Select(apps, order[n..]) == if k == |apps| then rest else Prepend([apps[k]], rest)
  {
    assert order[n..][0] == order[n] && order[n..][1..] == order[n + 1..];
    var rest := Select(After(apps, order[n]), order[n + 1..]);
    assert [] + rest.0 == rest.0;
  }

  lemma PrependTwice(a: seq<App>, app: App, r: (seq<App>, seq<App>))
    ensures Prepend(a, Prepend([app], r)) == Prepend(a + [app], r)
  {
    assert a + ([app] + r.0) == a + [app] + r.0;
  }

  /** The second phase: whatever was not marked goes to the end. */
  method AppendUnmoved(apps: seq<App>, itemMoved: array<bool>, picked: seq<App>) returns (reordered: seq<App>)
    requires itemMoved.Length == |apps|
    ensures reordered == picked + Unmarked(apps, itemMoved[..])
  {
    reordered := picked;
    assert apps[0..] == apps && itemMoved[0..] == itemMoved[..];
    for i := 0 to |apps|
      invariant reordered + Unmarked(apps[i..], itemMoved[i..]) == picked + Unmarked(apps, itemMoved[..])
    {
      assert apps[i..][0] == apps[i] && apps[i..][1..] == apps[i + 1..];
      assert itemMoved[i..][0] == itemMoved[i] && itemMoved[i..][1..] == itemMoved[i + 1..];
      if !itemMoved[i] {
        reordered := reordered + [apps[i]];
      }
    }
  }

  lemma {:induction false} NothingMarked(apps: seq<App>, moved: seq<bool>)
    requires |apps| == |moved| && forall i | 0 <= i < |moved| :: !moved[i]
    ensures Unmarked(apps, moved) == apps
  {
    if apps != [] { NothingMarked(apps[1..], moved[1..]); }
  }

  //////////////////// What reordering means ////////////////////

  /** The applications with this uuid, in order. */
  function With(apps: seq<App>, uuid: string): (r: seq<App>) {
    if apps == [] then [] else (if Named(apps[0], uuid) then [apps[0]] else []) + With(apps[1..], uuid)
  }

  lemma PrependConcat(app: App, a: seq<App>, b: seq<App>)
    ensures [app] + (a + b) == [app] + a + b
  {
  }

  lemma {:induction false} WithConcat(a: seq<App>, b: seq<App>, uuid: string)
    ensures With(a + b, uuid) == With(a, uuid) + With(b, uuid)
  {
    hide With, Named;
    if a == [] {
      assert a + b == b;
      WithOfNone(uuid);
    } else {
      var p, q := With(a[1..], uuid), With(b, uuid);
      WithConcat(a[1..], b, uuid);
      WithHead(a[0], a[1..], uuid);
      WithHead(a[0], a[1..] + b, uuid);
      assert a == [a[0]] + a[1..] && a + b == [a[0]] + (a[1..] + b);
      if Named(a[0], uuid) {
        assert With(a, uuid) == [a[0]] + p && With(a + b, uuid) == [a[0]] + (p + q);
        PrependConcat(a[0], p, q);
      } else {
        assert With(a, uuid) == p && With(a + b, uuid) == p + q;
      }
    }
  }

  lemma WithOfNone(uuid: string)
    ensures With([], uuid) == []
  {
  }

  lemma WithSplits(apps: seq<App>, k: nat, uuid: string)
    requires k < |apps|
    ensures With(apps, uuid) == With(apps[..k], uuid) + (if Named(apps[k], uuid) then [apps[k]] else []) + With(apps[k + 1..], uuid)
    ensures With(Without(apps, k), uuid) == With(apps[..k], uuid) + With(apps[k + 1..], uuid)
  {
    assert apps[k..][0] == apps[k] && apps[k..][1..] == apps[k + 1..];
    assert apps == apps[..k] + apps[k..];
    WithConcat(apps[..k], apps[k..], uuid);
    WithConcat(apps[..k], apps[k + 1..], uuid);
  }

  lemma FoundOrNone(apps: seq<App>, uuid: string)
    ensures var k := FirstWith(apps, uuid);
            if k == |apps| then With(apps, uuid) == []
            else With(apps[..k], uuid) == [] && With(apps, uuid) == [apps[k]] + With(apps[k + 1..], uuid)
  {
    var k := FirstWith(apps, uuid);
    NoneWith(apps[..k], uuid);
    if k < |apps| { WithSplits(apps, k, uuid); } else { assert apps[..k] == apps; }
  }

  /** An entry takes the first application with its uuid, and none with another. */
  lemma WithAfter(apps: seq<App>, entry: Option<string>, uuid: string)
    ensures Position(apps, entry) < |apps| <==> entry.Some? && With(apps, entry.value) != []
    ensures With(After(apps, entry), uuid) ==
            if entry == Some(uuid) && With(apps, uuid) != [] then With(apps, uuid)[1..] else With(apps, uuid)
    ensures entry.Some? && With(apps, entry.value) != [] ==> With(apps, entry.value)[0] == apps[Position(apps, entry)]
  {
    hide With, FirstWith;
    if entry.Some? { TakesFirst(apps, entry.value); }
    if Position(apps, entry) < |apps| && entry != Some(uuid) { KeepsOthers(apps, Position(apps, entry), uuid); }
  }

  lemma TakesFirst(apps: seq<App>, uuid: string)
    ensures var k := FirstWith(apps, uuid);
            if k == |apps| then With(apps, uuid) == []
            else With(apps, uuid) == [apps[k]] + With(Without(apps, k), uuid)
  {
    hide With, FirstWith;
    FoundOrNone(apps, uuid);
    var k := FirstWith(apps, uuid);
    if k < |apps| {
      WithSplits(apps, k, uuid);
      assert [] + With(apps[k + 1..], uuid) == With(apps[k + 1..], uuid);
    }
  }

  lemma KeepsOthers(apps: seq<App>, k: nat, uuid: string)
    requires k < |apps| && !Named(apps[k], uuid)
    ensures With(Without(apps, k), uuid) == With(apps, uuid)
  {
    hide With;
    WithSplits(apps, k, uuid);
    assert With(apps[..k], uuid) + [] == With(apps[..k], uuid);
  }

  lemma WithHead(app: App, apps: seq<App>, uuid: string)
    ensures With([app] + apps, uuid) == if Named(app, uuid) then [app] + With(apps, uuid) else With(apps, uuid)
  {
  }

  lemma {:induction false} NoneWith(apps: seq<App>, uuid: string)
    requires forall i | 0 <= i < |apps| :: !Named(apps[i], uuid)
    ensures With(apps, uuid) == []
  {
    if apps != [] { NoneWith(apps[1..], uuid); }
  }

  /** `With` keeps the applications with the uuid and nothing else, in their order. */
  lemma {:induction false} WithMeans(apps: seq<App>, uuid: string)
    ensures forall app :: multiset(With(apps, uuid))[app] == if app.uuid == Some(uuid) then multiset(apps)[app] else 0
    ensures |apps| == 1 ==> With(apps, uuid) == if apps[0].uuid == Some(uuid) then apps else []
  {
    if apps != [] {
      WithMeans(apps[1..], uuid);
      assert apps == [apps[0]] + apps[1..];
    }
  }

  /** Nothing is lost, added or copied. */
  lemma {:induction false} ReorderIsPermutation(apps: seq<App>, order: Request)
    ensures multiset(Reorder(apps, order)) == multiset(apps)
    decreases |order|
  {
    if order != [] {
      hide After, Position, Reorder;
      ReorderIsPermutation(After(apps, order[0]), order[1..]);
      ReorderUnfolds(apps, order);
      TakesOne(apps, order[0]);
    } else {
      assert Reorder(apps, order) == apps;
    }
  }

  lemma TakesOne(apps: seq<App>, entry: Option<string>)
    ensures var k := Position(apps, entry);
            if k == |apps| then After(apps, entry) == apps
            else multiset(apps) == multiset([apps[k]]) + multiset(After(apps, entry))
  {
    var k := Position(apps, entry);
    if k < |apps| { assert apps == apps[..k] + [apps[k]] + apps[k + 1..]; }
  }

  lemma ReorderUnfolds(apps: seq<App>, order: Request)
    requires order != []
    ensures var k := Position(apps, order[0]);
            var rest := Reorder(After(apps, order[0]), order[1..]);
            Reorder(apps, order) == if k == |apps| then rest else [apps[k]] + rest
  {
  }

  /** Among themselves, applications with the same uuid keep their order. */
  lemma {:induction false} SameUuidKeepsOrder(apps: seq<App>, order: Request, uuid: string)
    ensures With(Reorder(apps, order), uuid) == With(apps, uuid)
    decreases |order|
  {
    if order != [] {
      hide After, FirstWith, Reorder, With;
      var k := Position(apps, order[0]);
      SameUuidKeepsOrder(After(apps, order[0]), order[1..], uuid);
      WithAfter(apps, order[0], uuid);
      ReorderUnfolds(apps, order);
      if k < |apps| { WithHead(apps[k], Reorder(After(apps, order[0]), order[1..]), uuid); }
    } else {
      assert Reorder(apps, order) == apps;
    }
  }

  /** Reordering again by the same request changes nothing. */
  lemma {:induction false} ReorderIsIdempotent(apps: seq<App>, order: Request)
    ensures Reorder(Reorder(apps, order), order) == Reorder(apps, order)
    decreases |order|
  {
    if order != [] {
      hide Reorder, With;
      var once, k := Reorder(apps, order), Position(apps, order[0]);
      var rest := Reorder(After(apps, order[0]), order[1..]);
      ReorderIsIdempotent(After(apps, order[0]), order[1..]);
      ReorderUnfolds(apps, order);
      ReorderUnfolds(once, order);
      if k < |apps| {
        assert once == [apps[k]] + rest && Position(once, order[0]) == 0;
        assert After(once, order[0]) == once[..0] + once[1..] == rest;
      } else if order[0].Some? {
        SameUuidKeepsOrder(apps, order, order[0].value);
        WithAfter(apps, order[0], order[0].value);
        WithAfter(once, order[0], order[0].value);
      }
    }
  }

  /** How often the request names a uuid. */
  function Mentions(order: Request, uuid: string): nat {
    if order == [] then 0 else (if order[0] == Some(uuid) then 1 else 0) + Mentions(order[1..], uuid)
  }

  /** The application that entry `n` of the request takes: if it is the m-th mention of its
      uuid, the m-th application with it, if there is one. */
  function Taken(apps: seq<App>, order: Request, n: nat): Option<App>
    requires n < |order|
  {
    if order[n].None? then None
    else
      var all, m := With(apps, order[n].value), Mentions(order[..n], order[n].value);
      if m < |all| then Some(all[m]) else None
  }

  /** What the first `n` entries take, in request order. */
  function Chosen(apps: seq<App>, order: Request, n: nat): seq<App>
    requires n <= |order|
  {
    if n == 0 then []
    else
      var t := Taken(apps, order, n - 1);
      if t.Some? then Chosen(apps, order, n - 1) + [t.value] else Chosen(apps, order, n - 1)
  }

  /** Application `i` is left over unless its uuid is mentioned again after every earlier
      application with that uuid has been taken. */
  predicate LeftOver(apps: seq<App>, order: Request, i: nat)
    requires i < |apps|
  {
    apps[i].uuid.Some? ==> Mentions(order, apps[i].uuid.value) <= |With(apps[..i], apps[i].uuid.value)|
  }

  /** The applications left over among the first `n`, in their old order. */
  function Remaining(apps: seq<App>, order: Request, n: nat): seq<App>
    requires n <= |apps|
  {
    if n == 0 then []
    else Remaining(apps, order, n - 1) + if LeftOver(apps, order, n - 1) then [apps[n - 1]] else []
  }

  /** The whole result, without reference to the algorithm. */
  lemma ReorderMeans(apps: seq<App>, order: Request)
    ensures Reorder(apps, order) == Chosen(apps, order, |order|) + Remaining(apps, order, |apps|)
  {
    SelectMeans(apps, order);
  }

  lemma {:induction false} SelectMeans(apps: seq<App>, order: Request)
    ensures Select(apps, order) == (Chosen(apps, order, |order|), Remaining(apps, order, |apps|))
    decreases |order|
  {
    if order == [] {
      AllRemain(apps, order, |apps|);
      assert apps[..|apps|] == apps;
    } else {
      hide Position, After, Remaining, Chosen, Select;
      SelectMeans(After(apps, order[0]), order[1..]);
      ChosenAfterFirst(apps, order, |order| - 1);
      SelectUnfolds(apps, order, 0);
      assert order[0..] == order;
      RemainingAfterFirst(apps, order, |apps|);
    }
  }

  lemma FirstTakes(apps: seq<App>, order: Request)
    requires order != []
    ensures var k := Position(apps, order[0]);
            Taken(apps, order, 0) == if k == |apps| then None else Some(apps[k])
  {
    hide Position, With, After;
    if order[0].Some? { WithAfter(apps, order[0], order[0].value); }
  }

  lemma {:induction false} AllRemain(apps: seq<App>, order: Request, n: nat)
    requires order == [] && n <= |apps|
    ensures Remaining(apps, order, n) == apps[..n]
  {
    if n > 0 { AllRemain(apps, order, n - 1); }
  }

  lemma MentionsAfterFirst(order: Request, n: nat, uuid: string)
    requires n < |order|
    ensures Mentions(order[..n + 1], uuid) == (if order[0] == Some(uuid) then 1 else 0) + Mentions(order[1..][..n], uuid)
  {
    assert order[..n + 1][1..] == order[1..][..n];
  }

  lemma {:induction false} ChosenAfterFirst(apps: seq<App>, order: Request, n: nat)
    requires n < |order|
    ensures var k := Position(apps, order[0]);
            var rest := Chosen(After(apps, order[0]), order[1..], n);
            Chosen(apps, order, n + 1) == if k == |apps| then rest else [apps[k]] + rest
  {
    hide Position, After, Taken;
    if n == 0 {
      FirstTakes(apps, order);
    } else {
      ChosenAfterFirst(apps, order, n - 1);
      TakenAfterFirst(apps, order, n);
    }
  }

  lemma TakenAfterFirst(apps: seq<App>, order: Request, n: nat)
    requires 0 < n < |order|
    ensures Taken(apps, order, n) == Taken(After(apps, order[0]), order[1..], n - 1)
  {
    hide With, After;
    if order[n].Some? {
      WithAfter(apps, order[0], order[n].value);
      MentionsAfterFirst(order, n - 1, order[n].value);
    }
  }

  lemma {:induction false} RemainingAfterFirst(apps: seq<App>, order: Request, n: nat)
    requires order != [] && n <= |apps|
    ensures var k := Position(apps, order[0]);
            Remaining(apps, order, n) == Remaining(After(apps, order[0]), order[1..], if n > k then n - 1 else n)
  {
    hide LeftOver, FirstWith;
    if n > 0 {
      RemainingAfterFirst(apps, order, n - 1);
      LeftOverAfterFirst(apps, order, n - 1);
    }
  }

  lemma LeftOverAfterFirst(apps: seq<App>, order: Request, i: nat)
    requires order != [] && i < |apps|
    ensures var k := Position(apps, order[0]);
            if i == k then !LeftOver(apps, order, i)
            else LeftOver(apps, order, i) == LeftOver(After(apps, order[0]), order[1..], if i > k then i - 1 else i)
  {
    hide With, FirstWith;
    var k, after := Position(apps, order[0]), After(apps, order[0]);
    if apps[i].uuid.Some? {
      var uuid := apps[i].uuid.value;
      if i <= k {
        if order[0] == Some(uuid) { NoneWith(apps[..i], uuid); }
        if i < k { assert after[..i] == apps[..i]; }
      } else {
        PrefixPosition(apps, order[0].value, i);
        assert After(apps[..i], order[0]) == after[..i - 1];
        WithAfter(apps[..i], order[0], uuid);
      }
    }
  }

  lemma PrefixPosition(apps: seq<App>, uuid: string, n: nat)
    requires FirstWith(apps, uuid) < n <= |apps|
    ensures FirstWith(apps[..n], uuid) == FirstWith(apps, uuid)
  {
  }
}
