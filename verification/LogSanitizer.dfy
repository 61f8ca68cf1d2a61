/** Masking personal data in exported logs. The regular expressions themselves are not part
    of this module: it starts from the matches they find. */
module LogSanitizer {

  import opened Ascii
  import opened Decimal

  datatype Kind = USER | IP | MAC | EMAIL

  function KindName(k: Kind): string {
    match k
    case USER => "USER"
    case IP => "IP"
    case MAC => "MAC"
    case EMAIL => "EMAIL"
  }

  /** The groups of expressions, by the priority they are searched with. */
  datatype Pattern = Field | HomePath | Address | Hardware | Mail

  function Priority(p: Pattern): nat {
    match p
    case Field => 0
    case HomePath => 10
    case Address => 20
    case Hardware => 30
    case Mail => 40
  }

  function KindOf(p: Pattern): Kind {
    match p
    case Field => USER
    case HomePath => USER
    case Address => IP
    case Hardware => MAC
    case Mail => EMAIL
  }

  datatype Match = Match(begin: nat, end: nat, pattern: Pattern)

  /** A match covers at least one character of the input. */
  predicate InRange(m: Match, input: string) { m.begin < m.end <= |input| }

  //////////////////// Placeholders ////////////////////

  function KeyFor(kind: Kind, value: string): string {
    var key := KindName(kind) + ":" + value;
    if kind == USER then key else Lower(key)
  }

  /** User names count as they are; addresses without regard to case. */
  function Fold(kind: Kind, value: string): string { if kind == USER then value else Lower(value) }

  lemma LowerConcat(a: string, b: string)
    ensures Lower(a + b) == Lower(a) + Lower(b)
  {
  }

  function Prefix(kind: Kind): string {
    match kind
    case USER => "USER:"
    case IP => "ip:"
    case MAC => "mac:"
    case EMAIL => "email:"
  }

  lemma KeyShape(kind: Kind, value: string)
    ensures KeyFor(kind, value) == Prefix(kind) + Fold(kind, value)
  {
    var head := KindName(kind) + ":";
    LowerConcat(head, value);
    if kind != USER { assert Lower(head) == Prefix(kind); }
  }

  /** Keys are equal exactly for equal kinds and equal folded values. */
  lemma KeysTellApart(k1: Kind, v1: string, k2: Kind, v2: string)
    ensures KeyFor(k1, v1) == KeyFor(k2, v2) <==> k1 == k2 && Fold(k1, v1) == Fold(k2, v2)
  {
    KeyShape(k1, v1);
    KeyShape(k2, v2);
    var a, b := KeyFor(k1, v1), KeyFor(k2, v2);
    if a == b {
      assert a[0] == Prefix(k1)[0] && b[0] == Prefix(k2)[0];
      assert a[|Prefix(k1)|..] == Fold(k1, v1) && b[|Prefix(k2)|..] == Fold(k2, v2);
    }
  }

  function PlaceholderText(kind: Kind, id: nat): string { "<" + KindName(kind) + "_" + ToDecimal(id) + ">" }

  /** The number behind the last underscore can be read back. */
  lemma PlaceholderTextsAreDistinct(k1: Kind, i: nat, k2: Kind, j: nat)
    requires PlaceholderText(k1, i) == PlaceholderText(k2, j)
    ensures i == j
  {
    var t, d, e := PlaceholderText(k1, i), ToDecimal(i), ToDecimal(j);
    var a, b := "<" + KindName(k1) + "_", "<" + KindName(k2) + "_";
    NumberBehindUnderscore(t, a, d);
    NumberBehindUnderscore(t, b, e);
    assert |a| == |b|;
    assert d == t[|a|..|t| - 1] == e;
    DecimalRoundTrip(i);
    DecimalRoundTrip(j);
  }

  lemma NumberBehindUnderscore(t: string, a: string, d: string)
    requires t == a + d + ">" && a != "" && a[|a| - 1] == '_' && forall x | 0 <= x < |d| :: IsDigit(d[x])
    ensures t[|a| - 1] == '_' && d == t[|a|..|t| - 1]
    ensures forall x | |a| <= x < |t| - 1 :: t[x] != '_'
  {
  }

  /** The placeholders given out so far and the number of the next one. */
  datatype Table = Table(names: map<string, string>, next: nat)

  function Assign(t: Table, kind: Kind, value: string): Table {
    var key := KeyFor(kind, value);
    if key in t.names then t else Table(t.names[key := PlaceholderText(kind, t.next)], t.next + 1)
  }

  ghost predicate Numbered(name: string, next: nat) {
    exists kind, id: nat :: id < next && name == PlaceholderText(kind, id)
  }

  /** Names carry earlier numbers, and no name is given to two keys. */
  ghost predicate Sound(t: Table) {
    && (forall key | key in t.names :: Numbered(t.names[key], t.next))
    && (forall k1, k2 | k1 in t.names && k2 in t.names && t.names[k1] == t.names[k2] :: k1 == k2)
  }

  /** A later table knows everything an earlier one knew. */
  predicate Extends(t: Table, later: Table) {
    t.next <= later.next && forall key | key in t.names :: key in later.names && later.names[key] == t.names[key]
  }

  lemma AssignIsSound(t: Table, kind: Kind, value: string)
    requires Sound(t)
    ensures Sound(Assign(t, kind, value)) && Extends(t, Assign(t, kind, value))
    ensures KeyFor(kind, value) in Assign(t, kind, value).names
  {
    var key, u := KeyFor(kind, value), Assign(t, kind, value);
    if key !in t.names {
      forall k | k in t.names ensures Numbered(t.names[k], u.next) && t.names[k] != u.names[key] {
        var kd, id: nat :| id < t.next && t.names[k] == PlaceholderText(kd, id);
        if t.names[k] == u.names[key] { PlaceholderTextsAreDistinct(kd, id, kind, t.next); }
      }
      assert Numbered(u.names[key], u.next);
    }
  }

  /** What a new placeholder looks like, and that numbers are given out one after the other. */
  lemma NewPlaceholder(t: Table, kind: Kind, value: string)
    requires KeyFor(kind, value) !in t.names
    ensures var after := Assign(t, kind, value);
            && after.next == t.next + 1
            && after.names.Keys == t.names.Keys + {KeyFor(kind, value)}
            && after.names[KeyFor(kind, value)] ==
               "<" + (match kind case USER => "USER" case IP => "IP" case MAC => "MAC" case EMAIL => "EMAIL") + "_" + ToDecimal(t.next) + ">"
  {
  }

  /** All tokens a sanitizer ever writes: two are equal exactly if kind and folded value are,
      however many files lie between them. */
  lemma PlaceholdersTellApart(t: Table, later: Table, k1: Kind, v1: string, k2: Kind, v2: string)
    requires Extends(t, later) && Sound(later) && KeyFor(k1, v1) in t.names && KeyFor(k2, v2) in later.names
    ensures t.names[KeyFor(k1, v1)] == later.names[KeyFor(k2, v2)] <==> k1 == k2 && Fold(k1, v1) == Fold(k2, v2)
  {
    KeysTellApart(k1, v1, k2, v2);
  }

  //////////////////// Replacements and their order ////////////////////

  datatype Replacement = Replacement(begin: nat, end: nat, pattern: Pattern, text: string)

  /** Earlier start first, then the longer one, then the more important expression. */
  predicate Before(a: Replacement, b: Replacement) {
    if a.begin != b.begin then a.begin < b.begin
    else if a.end != b.end then a.end > b.end
    else Priority(a.pattern) < Priority(b.pattern)
  }

  predicate Sorted(rs: seq<Replacement>) { forall i, j | 0 <= i < j < |rs| :: !Before(rs[j], rs[i]) }

  /** Same place and expression mean the same text. */
  ghost predicate Coherent(rs: seq<Replacement>) {
    forall a, b | a in rs && b in rs && !Before(a, b) && !Before(b, a) :: a == b
  }

  /** A sorted list is all an unstable sort may return: there is only one. */
  lemma {:induction false} SortedIsUnique(a: seq<Replacement>, b: seq<Replacement>)
    requires Sorted(a) && Sorted(b) && multiset(a) == multiset(b) && Coherent(a)
    ensures a == b
  {
    hide Sorted, Coherent;
    if a == [] {
      assert |multiset(b)| == 0;
    } else {
      SameFirst(a, b);
      Tail(a);
      Tail(b);
      SortedIsUnique(a[1..], b[1..]);
      assert a == [a[0]] + a[1..] && b == [b[0]] + b[1..];
    }
  }

  lemma Tail(a: seq<Replacement>)
    requires a != []
    ensures Sorted(a) ==> Sorted(a[1..])
    ensures Coherent(a) ==> Coherent(a[1..])
    ensures multiset(a[1..]) == multiset(a) - multiset{a[0]}
  {
    hide Before;
    assert a == [a[0]] + a[1..];
    assert forall x :: x in a[1..] ==> x in a;
  }

  lemma SameFirst(a: seq<Replacement>, b: seq<Replacement>)
    requires Sorted(a) && Sorted(b) && multiset(a) == multiset(b) && Coherent(a) && a != []
    ensures b != [] && a[0] == b[0]
  {
    hide Before;
    assert a[0] in multiset(b);
    var i :| 0 <= i < |b| && b[i] == a[0];
    assert b[0] in multiset(a);
    var j :| 0 <= j < |a| && a[j] == b[0];
    assert i > 0 ==> !Before(b[i], b[0]);
    assert j > 0 ==> !Before(a[j], a[0]);
  }

  function Insert(r: Replacement, rs: seq<Replacement>): (s: seq<Replacement>)
    ensures multiset(s) == multiset{r} + multiset(rs)
    ensures Sorted(rs) ==> Sorted(s)
  {
    if rs == [] || !Before(rs[0], r) then
      InsertFirst(r, rs);
      [r] + rs
    else
      InsertLater(r, rs, Insert(r, rs[1..]));
      [rs[0]] + Insert(r, rs[1..])
  }

  lemma InsertFirst(r: Replacement, rs: seq<Replacement>)
    requires rs != [] ==> !Before(rs[0], r)
    ensures Sorted(rs) ==> Sorted([r] + rs)
  {
  }

  lemma InsertLater(r: Replacement, rs: seq<Replacement>, tail: seq<Replacement>)
    requires rs != [] && Before(rs[0], r) && multiset(tail) == multiset{r} + multiset(rs[1..])
    requires Sorted(rs[1..]) ==> Sorted(tail)
    ensures multiset([rs[0]] + tail) == multiset{r} + multiset(rs)
    ensures Sorted(rs) ==> Sorted([rs[0]] + tail)
  {
    assert rs == [rs[0]] + rs[1..];
    if Sorted(rs) {
      forall j | 0 <= j < |tail| ensures !Before(tail[j], rs[0]) {
        assert tail[j] in multiset(tail);
        if tail[j] != r {
          assert tail[j] in rs[1..];
          var i :| 0 <= i < |rs[1..]| && rs[1..][i] == tail[j];
        }
      }
    }
  }

  /** The result of sorting. */
  function Sort(rs: seq<Replacement>): (s: seq<Replacement>)
    ensures Sorted(s) && multiset(s) == multiset(rs)
  {
    if rs == [] then []
    else
      assert rs == [rs[0]] + rs[1..];
      Insert(rs[0], Sort(rs[1..]))
  }

  //////////////////// The rewriting pass ////////////////////

  /** The replacements applied by the pass, from `cursor` on. */
  function Kept(rs: seq<Replacement>, cursor: nat): seq<Replacement> {
    if rs == [] then []
    else if rs[0].begin < cursor then Kept(rs[1..], cursor)
    else [rs[0]] + Kept(rs[1..], rs[0].end)
  }

  /** `kept` are disjoint, in order, and chosen leftmost first: every replacement starts
      inside a kept one, and none with the same start is longer or more important. */
  ghost predicate LeftmostLongest(kept: seq<Replacement>, all: seq<Replacement>) {
    && (forall k | k in kept :: k in all)
    && (forall i, j | 0 <= i < j < |kept| :: kept[i].end <= kept[j].begin)
    && (forall r | r in all :: Covered(r, kept))
  }

  ghost predicate Covered(r: Replacement, kept: seq<Replacement>) {
    exists k | k in kept :: k.begin <= r.begin < k.end && (r.begin == k.begin ==> !Before(r, k))
  }

  predicate NonEmpty(rs: seq<Replacement>) { forall r | r in rs :: r.begin < r.end }

  lemma {:induction false} KeptIsDisjoint(rs: seq<Replacement>, cursor: nat)
    requires NonEmpty(rs)
    ensures var kept := Kept(rs, cursor);
            && (forall k | k in kept :: k in rs && cursor <= k.begin)
            && (forall i, j | 0 <= i < j < |kept| :: kept[i].end <= kept[j].begin)
  {
    if rs != [] {
      KeptIsDisjoint(rs[1..], if rs[0].begin < cursor then cursor else rs[0].end);
    }
  }

  /** Of a sorted list, whatever starts at or after the cursor is covered. */
  lemma {:induction false} KeptCovers(rs: seq<Replacement>, cursor: nat)
    requires NonEmpty(rs) && Sorted(rs)
    ensures forall r | r in rs && cursor <= r.begin :: Covered(r, Kept(rs, cursor))
  {
    if rs != [] {
      var first, kept := rs[0], Kept(rs, cursor);
      var next := if first.begin < cursor then cursor else first.end;
      KeptCovers(rs[1..], next);
      forall r | r in rs && cursor <= r.begin ensures Covered(r, kept) {
        var i :| 0 <= i < |rs| && rs[i] == r;
        if first.begin >= cursor && r.begin < first.end {
          assert i > 0 ==> !Before(rs[i], rs[0]);
          assert first in kept && first.begin <= r.begin;
        } else {
          assert rs[1..][i - 1] == r;
          assert Covered(r, Kept(rs[1..], next));
        }
      }
    }
  }

  lemma SameElements(rs: seq<Replacement>)
    ensures forall r :: r in Sort(rs) <==> r in rs
  {
    assert forall r :: r in Sort(rs) <==> r in multiset(rs);
  }

  lemma KeptIsLeftmostLongest(all: seq<Replacement>)
    requires NonEmpty(all)
    ensures LeftmostLongest(Kept(Sort(all), 0), all)
  {
    var s := Sort(all);
    SameElements(all);
    KeptIsDisjoint(s, 0);
    KeptCovers(s, 0);
  }

  /** That choice is the only one. */
  lemma ChoiceIsUnique(a: seq<Replacement>, b: seq<Replacement>, all: seq<Replacement>)
    requires LeftmostLongest(a, all) && LeftmostLongest(b, all) && NonEmpty(all) && Coherent(all)
    ensures a == b
  {
    hide *;
    SamePicks(a, b, all, |a|);
    SamePicks(b, a, all, |b|);
  }

  lemma {:induction false} SamePicks(a: seq<Replacement>, b: seq<Replacement>, all: seq<Replacement>, n: nat)
    requires LeftmostLongest(a, all) && LeftmostLongest(b, all) && NonEmpty(all) && Coherent(all)
    requires n <= |a|
    ensures n <= |b| && forall j | 0 <= j < n :: a[j] == b[j]
  {
    if n > 0 {
      hide *;
      SamePicks(a, b, all, n - 1);
      SameNext(a, b, all, n - 1);
    }
  }

  lemma SameNext(a: seq<Replacement>, b: seq<Replacement>, all: seq<Replacement>, n: nat)
    requires LeftmostLongest(a, all) && LeftmostLongest(b, all) && NonEmpty(all) && Coherent(all)
    requires n < |a| && n <= |b| && forall j | 0 <= j < n :: a[j] == b[j]
    ensures n < |b| && a[n] == b[n]
  {
    hide LeftmostLongest, NonEmpty, Before;
    StartsNoEarlier(a, b, all, n);
    StartsNoEarlier(b, a, all, n);
  }

  /** What `a` picks next is covered in `b` by its next pick. */
  lemma StartsNoEarlier(a: seq<Replacement>, b: seq<Replacement>, all: seq<Replacement>, n: nat)
    requires LeftmostLongest(a, all) && LeftmostLongest(b, all) && NonEmpty(all)
    requires n < |a| && n <= |b| && forall j | 0 <= j < n :: a[j] == b[j]
    ensures n < |b| && a[n] in all && b[n].begin <= a[n].begin && (b[n].begin == a[n].begin ==> !Before(a[n], b[n]))
  {
    hide LeftmostLongest, NonEmpty, Before;
    PicksInOrder(a, all);
    PicksInOrder(b, all);
    var j := Covering(a[n], b, all);
    assert forall i | 0 <= i < n :: b[i].end <= a[n].begin;
  }

  lemma PicksInOrder(kept: seq<Replacement>, all: seq<Replacement>)
    requires LeftmostLongest(kept, all) && NonEmpty(all)
    ensures forall i | 0 <= i < |kept| :: kept[i] in all && kept[i].begin < kept[i].end
    ensures forall i, j | 0 <= i < j < |kept| :: kept[i].end <= kept[j].begin
  {
  }

  lemma Covering(r: Replacement, kept: seq<Replacement>, all: seq<Replacement>) returns (j: nat)
    requires LeftmostLongest(kept, all) && r in all
    ensures j < |kept| && kept[j].begin <= r.begin < kept[j].end && (r.begin == kept[j].begin ==> !Before(r, kept[j]))
  {
    assert Covered(r, kept);
    var k :| k in kept && k.begin <= r.begin < k.end && (r.begin == k.begin ==> !Before(r, k));
    j :| 0 <= j < |kept| && kept[j] == k;
  }

  /** Of all matches that start where a kept one does, none is longer, and of those that are
      as long none comes from an expression searched with more importance. */
  lemma LongestWins(kept: seq<Replacement>, all: seq<Replacement>, k: Replacement, r: Replacement)
    requires LeftmostLongest(kept, all) && NonEmpty(all)
    requires k in kept && r in all && r.begin == k.begin
    ensures r.end <= k.end
    ensures r.end == k.end ==>
              match r.pattern
              case Field => k.pattern.Field?
              case HomePath => k.pattern.Field? || k.pattern.HomePath?
              case Address => k.pattern.Field? || k.pattern.HomePath? || k.pattern.Address?
              case Hardware => !k.pattern.Mail?
              case Mail => true
  {
    hide LeftmostLongest, NonEmpty, Before;
    PicksInOrder(kept, all);
    var i :| 0 <= i < |kept| && kept[i] == k;
    var j := Covering(r, kept, all);
    assert i == j;
    NotBefore(r, k);
  }

  lemma NotBefore(r: Replacement, k: Replacement)
    requires !Before(r, k) && r.begin == k.begin
    ensures r.end <= k.end
    ensures r.end == k.end ==>
              match r.pattern
              case Field => k.pattern.Field?
              case HomePath => k.pattern.Field? || k.pattern.HomePath?
              case Address => k.pattern.Field? || k.pattern.HomePath? || k.pattern.Address?
              case Hardware => !k.pattern.Mail?
              case Mail => true
  {
  }

  //////////////////// The text written ////////////////////

  /** The log cut into stretches left alone and stretches masked. */
  datatype Piece = Plain(text: string) | Masked(text: string, original: string)

  function Pieces(input: string, kept: seq<Replacement>, cursor: nat): seq<Piece>
    requires cursor <= |input| && Fits(input, kept, cursor)
  {
    if kept == [] then [Plain(input[cursor..])]
    else
      var k := kept[0];
      [Plain(input[cursor..k.begin]), Masked(k.text, input[k.begin..k.end])] + Pieces(input, kept[1..], k.end)
  }

  /** The spans lie in the input one behind the other. */
  predicate Fits(input: string, kept: seq<Replacement>, cursor: nat) {
    kept == [] || (cursor <= kept[0].begin <= kept[0].end <= |input| && Fits(input, kept[1..], kept[0].end))
  }

  function Shown(ps: seq<Piece>): string { if ps == [] then "" else ps[0].text + Shown(ps[1..]) }

  function Original(ps: seq<Piece>): string {
    if ps == [] then "" else (match ps[0] case Plain(t) => t case Masked(_, o) => o) + Original(ps[1..])
  }

  /** Un-masking the pieces gives the input back: nothing outside the spans is lost, added or moved. */
  lemma {:induction false} PiecesCoverInput(input: string, kept: seq<Replacement>, cursor: nat)
    requires cursor <= |input| && Fits(input, kept, cursor)
    ensures Original(Pieces(input, kept, cursor)) == input[cursor..]
  {
    if kept != [] {
      var k := kept[0];
      PiecesCoverInput(input, kept[1..], k.end);
      var ps, rest := Pieces(input, kept, cursor), Pieces(input, kept[1..], k.end);
      assert ps[1..][1..] == rest && ps[1..][0] == ps[1];
      assert input[cursor..k.begin] + (input[k.begin..k.end] + input[k.end..]) == input[cursor..];
    }
  }

  /** What is shown of pieces in a row is what is shown of each. */
  lemma {:induction false} ShownJoins(a: seq<Piece>, b: seq<Piece>)
    ensures Shown(a + b) == Shown(a) + Shown(b)
  {
    if a == [] {
      assert a + b == b;
    } else {
      assert (a + b)[1..] == a[1..] + b;
      ShownJoins(a[1..], b);
    }
  }

  lemma ShownOne(p: Piece)
    ensures Shown([p]) == match p case Plain(text) => text case Masked(text, _) => text
  {
    assert [p][1..] == [] && p.text + "" == p.text;
  }

  /** A match whose text has a placeholder. */
  predicate Known(m: Match, input: string, names: map<string, string>) { InRange(m, input) && MatchKey(m, input) in names }

  function MatchKey(m: Match, input: string): string
    requires InRange(m, input)
  {
    KeyFor(KindOf(m.pattern), input[m.begin..m.end])
  }

  function Replace(m: Match, input: string, names: map<string, string>): Replacement
    requires Known(m, input, names)
  {
    Replacement(m.begin, m.end, m.pattern, names[MatchKey(m, input)])
  }

  predicate AllKnown(ms: seq<Match>, input: string, names: map<string, string>) { forall m | m in ms :: Known(m, input, names) }

  /** Matches with the text that is to replace them. */
  function Resolve(input: string, ms: seq<Match>, names: map<string, string>): (rs: seq<Replacement>)
    requires AllKnown(ms, input, names)
    ensures |rs| == |ms|
    ensures forall i | 0 <= i < |ms| :: ms[i] in ms && rs[i] == Replace(ms[i], input, names)
  {
    seq(|ms|, i requires 0 <= i < |ms| => assert ms[i] in ms; Replace(ms[i], input, names))
  }

  /** Later placeholders do not change what has been resolved. */
  lemma ResolveNext(input: string, ms: seq<Match>, m: Match, names: map<string, string>, later: map<string, string>)
    requires AllKnown(ms, input, names) && Known(m, input, later)
    requires forall key | key in names :: key in later && later[key] == names[key]
    ensures AllKnown(ms + [m], input, later)
    ensures Resolve(input, ms + [m], later) == Resolve(input, ms, names) + [Replace(m, input, later)]
  {
  }

  lemma ResolvedIsCoherent(input: string, ms: seq<Match>, names: map<string, string>)
    requires AllKnown(ms, input, names)
    ensures Coherent(Resolve(input, ms, names)) && NonEmpty(Resolve(input, ms, names))
    ensures forall r | r in Resolve(input, ms, names) :: r.begin <= r.end <= |input|
  {
    var rs := Resolve(input, ms, names);
    forall x, y | x in rs && y in rs && !Before(x, y) && !Before(y, x) ensures x == y {
      var i :| 0 <= i < |rs| && rs[i] == x;
      var j :| 0 <= j < |rs| && rs[j] == y;
      assert x.pattern == y.pattern;
    }
  }

  /** A match is replaced by the placeholder of what it covers, as a user name, an address, a
      hardware address or a mail address according to the expression that found it. */
  lemma MatchMeans(input: string, ms: seq<Match>, names: map<string, string>, i: nat)
    requires AllKnown(ms, input, names) && i < |ms|
    ensures var m, r := ms[i], Resolve(input, ms, names)[i];
            var value := input[m.begin..m.end];
            var key := if m.pattern.Field? || m.pattern.HomePath? then "USER:" + value
                       else if m.pattern.Address? then "ip:" + Lower(value)
                       else if m.pattern.Hardware? then "mac:" + Lower(value)
                       else "email:" + Lower(value);
            && key in names && r == Replacement(m.begin, m.end, m.pattern, names[key])
  {
    var m := ms[i];
    assert m in ms;
    KeyShape(KindOf(m.pattern), input[m.begin..m.end]);
  }

  /** What the export of one log amounts to, given the final placeholders. */
  function Sanitized(input: string, ms: seq<Match>, names: map<string, string>): string
    requires AllKnown(ms, input, names)
  {
    var kept := Kept(Sort(Resolve(input, ms, names)), 0);
    KeptFits(input, ms, names);
    Shown(Pieces(input, kept, 0))
  }

  lemma KeptFits(input: string, ms: seq<Match>, names: map<string, string>)
    requires AllKnown(ms, input, names)
    ensures Fits(input, Kept(Sort(Resolve(input, ms, names)), 0), 0)
  {
    var rs := Resolve(input, ms, names);
    ResolvedIsCoherent(input, ms, names);
    SameElements(rs);
    GreedyFits(input, Sort(rs), 0);
  }

  lemma {:induction false} GreedyFits(input: string, rs: seq<Replacement>, cursor: nat)
    requires forall r | r in rs :: r.begin <= r.end <= |input|
    ensures Fits(input, Kept(rs, cursor), cursor)
  {
    if rs != [] {
      assert rs[0] in rs;
      GreedyFits(input, rs[1..], if rs[0].begin < cursor then cursor else rs[0].end);
    }
  }

  /** The export is fixed by the matches alone: it is the input with any leftmost-longest
      choice of them masked, whatever order they were found or sorted in. */
  lemma SanitizedMeans(input: string, ms: seq<Match>, names: map<string, string>, kept: seq<Replacement>)
    requires AllKnown(ms, input, names) && LeftmostLongest(kept, Resolve(input, ms, names))
    ensures Fits(input, kept, 0)
    ensures Sanitized(input, ms, names) == Shown(Pieces(input, kept, 0))
    ensures Original(Pieces(input, kept, 0)) == input
  {
    var rs := Resolve(input, ms, names);
    hide LeftmostLongest, Resolve;
    ResolvedIsCoherent(input, ms, names);
    KeptIsLeftmostLongest(rs);
    ChoiceIsUnique(kept, Kept(Sort(rs), 0), rs);
    KeptFits(input, ms, names);
    PiecesCoverInput(input, kept, 0);
  }

  //////////////////// The sanitizer ////////////////////

  class ExportLogSanitizer {
    var placeholders: map<string, string>
    var nextId: nat

    function Abs(): Table
      reads this
    {
      Table(placeholders, nextId)
    }

    constructor ()
      ensures Abs() == Table(map[], 1) && Sound(Abs())
    {
      placeholders, nextId := map[], 1;
    }

    method Placeholder(kind: Kind, value: string) returns (text: string)
      requires Sound(Abs())
      modifies this
      ensures Abs() == Assign(old(Abs()), kind, value)
      ensures Sound(Abs()) && Extends(old(Abs()), Abs())
      ensures KeyFor(kind, value) in placeholders && text == placeholders[KeyFor(kind, value)]
    {
      AssignIsSound(Abs(), kind, value);
      var key := KeyFor(kind, value);
      if key in placeholders {
        return placeholders[key];
      }
      text := PlaceholderText(kind, nextId);
      nextId := nextId + 1;
      placeholders := placeholders[key := text];
    }

    /** Every match gets its placeholder, even one that is not applied in the end. */
    method AddMatches(input: string, ms: seq<Match>) returns (rs: seq<Replacement>)
      requires Sound(Abs()) && forall m | m in ms :: m.begin < m.end <= |input|
      modifies this
      ensures Sound(Abs()) && Extends(old(Abs()), Abs())
      ensures AllKnown(ms, input, placeholders)
      ensures rs == Resolve(input, ms, placeholders)
    {
      hide Sound, Assign, KeyFor, Resolve;
      rs := [];
      for n := 0 to |ms|
        invariant Sound(Abs()) && Extends(old(Abs()), Abs())
        invariant AllKnown(ms[..n], input, placeholders) && rs == Resolve(input, ms[..n], placeholders)
      {
        var m := ms[n];
        assert m in ms && InRange(m, input);
        ghost var before := placeholders;
        var text := Placeholder(KindOf(m.pattern), input[m.begin..m.end]);
        rs := rs + [Replacement(m.begin, m.end, m.pattern, text)];
        ResolveNext(input, ms[..n], m, before, placeholders);
        assert ms[..n + 1] == ms[..n] + [m];
      }
      assert ms[..|ms|] == ms;
    }

    method Sanitize(input: string, ms: seq<Match>) returns (output: string)
      requires Sound(Abs()) && forall m | m in ms :: m.begin < m.end <= |input|
      modifies this
      ensures Sound(Abs()) && Extends(old(Abs()), Abs())
      ensures AllKnown(ms, input, placeholders)
      ensures output == Sanitized(input, ms, placeholders)
    {
      var rs := AddMatches(input, ms);
      ResolvedIsCoherent(input, ms, placeholders);
      SameElements(rs);
      output := Rewrite(input, Sort(rs));
    }
  }

  /** The rewriting pass. */
  method Rewrite(input: string, rs: seq<Replacement>) returns (output: string)
    requires forall r | r in rs :: r.begin <= r.end <= |input|
    ensures Fits(input, Kept(rs, 0), 0) && output == Shown(Pieces(input, Kept(rs, 0), 0))
  {
    output := "";
    var cursor: nat := 0;
    GreedyFits(input, rs, 0);
    assert rs[0..] == rs;
    for n := 0 to |rs|
      invariant cursor <= |input| && Fits(input, Kept(rs[n..], cursor), cursor)
      invariant Shown(Pieces(input, Kept(rs, 0), 0)) == output + Shown(Pieces(input, Kept(rs[n..], cursor), cursor))
    {
      assert rs[n] in rs;
      assert rs[n..][0] == rs[n] && rs[n..][1..] == rs[n + 1..];
      if rs[n].begin < cursor || rs[n].end > |input| {
        continue;
      }
      ShownUnfolds(input, rs[n], Kept(rs[n + 1..], rs[n].end), cursor, output);
      output := output + input[cursor..rs[n].begin];
      output := output + rs[n].text;
      cursor := rs[n].end;
    }
    output := output + input[cursor..];
  }

  lemma ShownUnfolds(input: string, r: Replacement, kept: seq<Replacement>, cursor: nat, output: string)
    requires cursor <= r.begin <= r.end <= |input| && Fits(input, [r] + kept, cursor)
    ensures Fits(input, kept, r.end)
    ensures output + Shown(Pieces(input, [r] + kept, cursor)) ==
            output + input[cursor..r.begin] + r.text + Shown(Pieces(input, kept, r.end))
  {
  }
}
