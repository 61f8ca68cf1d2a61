/** The two handlers that rewrite the configuration file: saving a whole object, and
    patching the file that is there. */
module ConfigUpdate {

  import opened AdapterKeys
  import opened ConfigText

  /** A JSON value as far as the handlers look at it: `Other` carries its serialized text. */
  datatype Json = Null | Text(text: string) | Other(dump: string)

  predicate HasText(o: map<string, Json>, key: string) {
    key in o && o[key].Text? && o[key].text != ""
  }

  /** A saved object keeps its PnP id only next to an adapter name, both non-empty strings. */
  function NormalizedPair(o: map<string, Json>): map<string, Json> {
    if HasText(o, NAME) && HasText(o, PNP) then o else o - {PNP}
  }

  /** A patch may not touch the PnP id alone; naming an adapter without one clears it. */
  function NormalizedPatch(o: map<string, Json>): map<string, Json> {
    if NAME !in o then o - {PNP}
    else if HasText(o, NAME) && HasText(o, PNP) then o
    else o[PNP := Null]
  }

  /** Null and the empty string stand for "remove". */
  predicate Removes(v: Json) { v.Null? || v == Text("") }

  function Encode(v: Json): string
    requires !v.Null?
  {
    if v.Text? then v.text else v.dump
  }

  /** What a saved object is meant to say. */
  function SavedMap(o: map<string, Json>): map<string, string> {
    map k | k in o && !Removes(o[k]) :: Encode(o[k])
  }

  /** What a patched file is meant to say: removed keys gone, set keys set, all others unchanged. */
  function PatchedMap(current: map<string, string>, patch: map<string, Json>): map<string, string> {
    map k | k in current.Keys + patch.Keys && (k in patch ==> !Removes(patch[k])) ::
      if k in patch then Encode(patch[k]) else current[k]
  }

  /** Field by field: null and the empty text write nothing, other texts are written as they are
      and other values as they are serialized. */
  lemma SavedMeans(o: map<string, Json>, k: string)
    ensures k in SavedMap(o) <==> k in o && o[k] != Null && o[k] != Text("")
    ensures k in SavedMap(o) ==> SavedMap(o)[k] == match o[k] case Text(text) => text case Other(dump) => dump case Null => ""
  {
  }

  lemma PatchedMeans(current: map<string, string>, patch: map<string, Json>, k: string)
    ensures k in PatchedMap(current, patch) <==> if k in patch then patch[k] != Null && patch[k] != Text("") else k in current
    ensures k in PatchedMap(current, patch) ==>
              PatchedMap(current, patch)[k] ==
              if k !in patch then current[k] else match patch[k] case Text(text) => text case Other(dump) => dump case Null => ""
  {
  }

  /** Normalizing touches the PnP id only. In a saved object it stays exactly if it and the
      adapter name are non-empty texts; in a patch it is dropped if no name is sent, and becomes
      null unless both are non-empty texts. */
  lemma NormalizingMeans(o: map<string, Json>)
    ensures var whole := NormalizedPair(o);
            && (forall k | k != "adapter_pnp_id" :: k in whole <==> k in o) && (forall k | k in whole :: k in o && whole[k] == o[k])
            && ("adapter_pnp_id" in whole <==>
                && "adapter_pnp_id" in o && o["adapter_pnp_id"].Text? && o["adapter_pnp_id"] != Text("")
                && "adapter_name" in o && o["adapter_name"].Text? && o["adapter_name"] != Text(""))
    ensures var patch := NormalizedPatch(o);
            && (forall k | k != "adapter_pnp_id" :: (k in patch <==> k in o) && (k in o ==> patch[k] == o[k]))
            && ("adapter_pnp_id" in patch <==> "adapter_name" in o)
            && ("adapter_name" in o ==>
                patch["adapter_pnp_id"] ==
                if && "adapter_pnp_id" in o && o["adapter_pnp_id"].Text? && o["adapter_pnp_id"] != Text("")
                   && o["adapter_name"].Text? && o["adapter_name"] != Text("")
                then o["adapter_pnp_id"] else Null)
  {
  }

  lemma PatchedByNothing(current: map<string, string>)
    ensures PatchedMap(current, map[]) == current
  {
  }

  lemma PatchedMore(current: map<string, string>, patch: map<string, Json>, k: string, v: Json)
    requires k !in patch
    ensures PatchedMap(current, patch[k := v]) ==
            if Removes(v) then PatchedMap(current, patch) - {k} else PatchedMap(current, patch)[k := Encode(v)]
  {
  }

  /** Two patches in a row are one patch in which the later one wins. */
  lemma PatchedTwice(current: map<string, string>, patch: map<string, Json>, later: map<string, Json>)
    ensures PatchedMap(PatchedMap(current, patch), later) == PatchedMap(current, patch + later)
  {
  }

  /** `bs` are the bindings of `m` in some order. */
  predicate ListsMap(bs: seq<Binding>, m: map<string, string>) {
    DistinctKeys(bs) && MapOf(bs) == m
  }

  lemma {:induction false} PrintAppend(bs: seq<Binding>, b: Binding)
    ensures Print(bs + [b]) == Print(bs) + PrintLine(b)
  {
    hide PrintLine;
    if bs == [] {
      assert [] + [b] == [b] && [b][1..] == [];
    } else {
      PrintAppend(bs[1..], b);
      assert (bs + [b])[1..] == bs[1..] + [b];
    }
  }

  lemma {:induction false} MapOfAppend(bs: seq<Binding>, b: Binding)
    requires b.key !in MapOf(bs)
    ensures MapOf(bs + [b]) == MapOf(bs)[b.key := b.value]
  {
    if bs == [] {
      assert [] + [b] == [b] && [b][1..] == [];
    } else {
      MapOfAppend(bs[1..], b);
      assert (bs + [b])[1..] == bs[1..] + [b];
    }
  }

  lemma ListsMore(bs: seq<Binding>, m: map<string, string>, b: Binding)
    requires ListsMap(bs, m) && b.key !in m
    ensures ListsMap(bs + [b], m[b.key := b.value])
  {
    MapOfAppend(bs, b);
    MapOfKeys(bs, b.key);
  }

  /** Prints a map, in whatever order it yields its entries. */
  method PrintMap(m: map<string, string>) returns (text: string, ghost lines: seq<Binding>)
    ensures text == Print(lines) && ListsMap(lines, m)
  {
    hide PrintLine;
    text, lines := "", [];
    var todo := m.Keys;
    while todo != {}
      invariant todo <= m.Keys
      invariant text == Print(lines) && ListsMap(lines, m - todo)
      decreases todo
    {
      var k :| k in todo;
      PrintAppend(lines, Binding(k, m[k]));
      ListsMore(lines, m - todo, Binding(k, m[k]));
      assert (m - todo)[k := m[k]] == m - (todo - {k});
      text := text + PrintLine(Binding(k, m[k]));
      lines := lines + [Binding(k, m[k])];
      todo := todo - {k};
    }
    assert m - todo == m;
  }

  /** The object of a request; the normalizers edit it in place. */
  class ConfigObject {
    var fields: map<string, Json>

    constructor (fields: map<string, Json>)
      ensures this.fields == fields
    {
      this.fields := fields;
    }

    method NormalizePair()
      modifies this
      ensures fields == NormalizedPair(old(fields))
    {
      if NAME !in fields || !fields[NAME].Text? || fields[NAME].text == "" {
        fields := fields - {PNP};
        return;
      }
      if PNP !in fields || !fields[PNP].Text? || fields[PNP].text == "" {
        fields := fields - {PNP};
      }
    }

    method NormalizePatch()
      modifies this
      ensures fields == NormalizedPatch(old(fields))
    {
      if NAME !in fields {
        fields := fields - {PNP};
        return;
      }
      var nameIsNonempty := fields[NAME].Text? && fields[NAME].text != "";
      var pnpIsNonempty := PNP in fields && fields[PNP].Text? && fields[PNP].text != "";
      if !nameIsNonempty || !pnpIsNonempty {
        fields := fields[PNP := Null];
      }
    }

    /** Writes the whole object, leaving out null and empty values. */
    method SaveConfig() returns (text: string, ghost lines: seq<Binding>)
      modifies this
      ensures fields == NormalizedPair(old(fields))
      ensures text == Print(lines) && ListsMap(lines, SavedMap(fields))
    {
      hide PrintLine;
      NormalizePair();
      text, lines := "", [];
      var todo := fields.Keys;
      while todo != {}
        invariant todo <= fields.Keys && fields == NormalizedPair(old(fields))
        invariant text == Print(lines) && ListsMap(lines, SavedMap(fields - todo))
        decreases todo
      {
        var k :| k in todo;
        var v := fields[k];
        var done := fields - todo;
        assert fields - (todo - {k}) == done[k := v];
        if !(v.Null? || (v.Text? && v.text == "")) {
          PrintAppend(lines, Binding(k, Encode(v)));
          ListsMore(lines, SavedMap(done), Binding(k, Encode(v)));
          assert SavedMap(done[k := v]) == SavedMap(done)[k := Encode(v)];
          text := text + PrintLine(Binding(k, Encode(v)));
          lines := lines + [Binding(k, Encode(v))];
        } else {
          assert SavedMap(done[k := v]) == SavedMap(done);
        }
        todo := todo - {k};
      }
      assert fields - todo == fields;
    }

    /** Applies the patch to the bindings of the present file and prints the result. */
    method PatchConfig(content: string) returns (text: string, ghost lines: seq<Binding>)
      modifies this
      ensures fields == NormalizedPatch(old(fields))
      ensures text == Print(lines) && ListsMap(lines, PatchedMap(Parse(content), fields))
    {
      hide PatchedMap, Encode, Parse;
      NormalizePatch();
      var current := ParseConfig(content);
      PatchedByNothing(current);
      ghost var before := current;
      var todo := fields.Keys;
      assert fields - todo == map[];
      while todo != {}
        invariant todo <= fields.Keys && fields == NormalizedPatch(old(fields))
        invariant current == PatchedMap(before, fields - todo)
        decreases todo
      {
        var k :| k in todo;
        var v := fields[k];
        ghost var done := fields - todo;
        assert fields - (todo - {k}) == done[k := v];
        PatchedMore(before, done, k, v);
        if v.Null? || (v.Text? && v.text == "") {
          current := current - {k};
        } else {
          current := current[k := Encode(v)];
        }
        todo := todo - {k};
      }
      assert fields - todo == fields;
      text, lines := PrintMap(current);
    }
  }

  //////////////////// What the files say afterwards ////////////////////

  predicate WellFormedKeys(m: map<string, string>) { forall k | k in m :: WellFormedKey(k) }

  predicate PrintableValues(m: map<string, string>) { forall k | k in m :: Printable(m[k]) }

  lemma {:induction false} ListedBinding(bs: seq<Binding>, i: nat)
    requires DistinctKeys(bs) && i < |bs|
    ensures bs[i].key in MapOf(bs) && MapOf(bs)[bs[i].key] == bs[i].value
  {
    if i > 0 {
      assert bs[1..][i - 1] == bs[i];
      ListedBinding(bs[1..], i - 1);
    }
  }

  /** What the file format can hold. */
  predicate Writable(m: map<string, string>) { WellFormedKeys(m) && PrintableValues(m) }

  /** A printed map is read back exactly when all its keys are well formed and its values printable. */
  lemma PrintedMapParses(bs: seq<Binding>, m: map<string, string>)
    requires ListsMap(bs, m)
    ensures Parse(Print(bs)) == m <==> Writable(m)
  {
    hide WellFormedKey, Printable, Parse;
    forall i | 0 <= i < |bs| ensures bs[i].key in m && m[bs[i].key] == bs[i].value {
      ListedBinding(bs, i);
    }
    ParseUndoesPrint(bs);
    if AllWellFormed(bs) && AllPrintable(bs) {
      forall k | k in m ensures WellFormedKey(k) && Printable(m[k]) {
        MapOfKeys(bs, k);
      }
    }
  }

  /** A patch gives a file that can be read back if it sets well-formed keys to printable
      values and whatever else is in the file is printable: the keys already there are well formed. */
  lemma PatchedIsWritable(content: string, patch: map<string, Json>)
    ensures Writable(PatchedMap(Parse(content), patch)) <==>
            && (forall k | k in patch && !Removes(patch[k]) :: WellFormedKey(k) && Printable(Encode(patch[k])))
            && (forall k | k in Parse(content) && k !in patch :: Printable(Parse(content)[k]))
  {
    hide WellFormedKey, Printable, ParseFrom;
    var m := PatchedMap(Parse(content), patch);
    ParsedKeysAreWellFormed(content, map[]);
    forall k | k in patch && !Removes(patch[k]) ensures k in m && m[k] == Encode(patch[k]) {}
    forall k | k in Parse(content) && k !in patch ensures k in m && m[k] == Parse(content)[k] {}
  }

  /** After a patch the file means: removed keys gone, set keys set, all others as before;
      exactly when the file format can hold that map. */
  lemma PatchedFileParses(content: string, patch: map<string, Json>, lines: seq<Binding>)
    requires ListsMap(lines, PatchedMap(Parse(content), patch))
    ensures Parse(Print(lines)) == PatchedMap(Parse(content), patch) <==>
            && (forall k | k in patch && !Removes(patch[k]) :: WellFormedKey(k) && Printable(Encode(patch[k])))
            && (forall k | k in Parse(content) && k !in patch :: Printable(Parse(content)[k]))
  {
    hide WellFormedKey, Printable, Parse, Print;
    PrintedMapParses(lines, PatchedMap(Parse(content), patch));
    PatchedIsWritable(content, patch);
  }

  /** From then on the file stays in step: what a further patch leaves reads back as the
      union of both, the later one on top, exactly when the file format can hold it. */
  lemma PatchesCompose(content: string, patch: map<string, Json>, lines: seq<Binding>,
                       later: map<string, Json>, laterLines: seq<Binding>)
    requires ListsMap(lines, PatchedMap(Parse(content), patch)) && Writable(PatchedMap(Parse(content), patch))
    requires ListsMap(laterLines, PatchedMap(Parse(Print(lines)), later))
    ensures PatchedMap(PatchedMap(Parse(content), patch), later) == PatchedMap(Parse(content), patch + later)
    ensures Parse(Print(laterLines)) == PatchedMap(Parse(content), patch + later) <==>
            Writable(PatchedMap(Parse(content), patch + later))
  {
    hide Writable, Parse, Print;
    PrintedMapParses(lines, PatchedMap(Parse(content), patch));
    PatchedTwice(Parse(content), patch, later);
    PrintedMapParses(laterLines, PatchedMap(Parse(content), patch + later));
  }

  /** This is about patches as they are applied. As they are sent, two patches are not their
      union: a PnP id sent after its adapter name is dropped, sent together with it is kept. */
  lemma SentPatchesDoNotCompose(name: string, pnp: string)
    requires name != "" && pnp != ""
    ensures var first, second := map[NAME := Text(name)], map[PNP := Text(pnp)];
            && PNP !in PatchedMap(PatchedMap(map[], NormalizedPatch(first)), NormalizedPatch(second))
            && PatchedMap(map[], NormalizedPatch(first + second)) == map[NAME := name, PNP := pnp]
  {
  }

  //////////////////// Adapter name and PnP id ////////////////////

  /** A PnP id is present only next to a non-empty adapter name. */
  predicate AdapterConsistent(m: map<string, string>) {
    PNP in m ==> NAME in m && m[NAME] != ""
  }

  /** A saved file that can be read back has a PnP id only next to an adapter name. */
  lemma SaveIsAdapterConsistent(o: map<string, Json>, lines: seq<Binding>)
    requires ListsMap(lines, SavedMap(NormalizedPair(o))) && Writable(SavedMap(NormalizedPair(o)))
    ensures AdapterConsistent(Parse(Print(lines)))
    ensures var file := Parse(Print(lines));
            "adapter_pnp_id" in file ==> "adapter_name" in file && file["adapter_name"] != "" && file["adapter_pnp_id"] != ""
  {
    hide Parse, Print, Writable;
    PrintedMapParses(lines, SavedMap(NormalizedPair(o)));
  }

  /** A patch whose result can be read back leaves the file consistent exactly when it was
      so before or the patch names an adapter. */
  lemma PatchAdapterConsistent(content: string, patch: map<string, Json>, lines: seq<Binding>)
    requires ListsMap(lines, PatchedMap(Parse(content), NormalizedPatch(patch)))
    requires Writable(PatchedMap(Parse(content), NormalizedPatch(patch)))
    ensures AdapterConsistent(Parse(Print(lines))) <==> NAME in patch || AdapterConsistent(Parse(content))
  {
    hide Parse, Print, Writable;
    PrintedMapParses(lines, PatchedMap(Parse(content), NormalizedPatch(patch)));
  }

  const Swallowing := map["aaa" := Text("["), NAME := Text("x]"), PNP := Text("Y")]

  const SwallowingLines := [Binding("aaa", "["), Binding(NAME, "x]"), Binding(PNP, "Y")]

  /** Without that condition both fail: a list opened by an earlier value swallows the line of
      the adapter name, and the PnP id is read back alone. */
  lemma UnwritableValueLosesName()
    ensures NormalizedPair(Swallowing) == Swallowing == NormalizedPatch(Swallowing)
    ensures ListsMap(SwallowingLines, SavedMap(Swallowing))
    ensures ListsMap(SwallowingLines, PatchedMap(Parse(""), Swallowing))
    ensures AdapterConsistent(Parse("")) && !AdapterConsistent(Parse(Print(SwallowingLines)))
  {
    ParseNothing(map[]);
    SwallowingMeans();
    hide NormalizedPair, NormalizedPatch, SavedMap, PatchedMap, Print, ParseFrom, ListsMap;
    SwallowingIsListed();
    SwallowedText();
    SwallowedList();
  }

  lemma SwallowingMeans()
    ensures NormalizedPair(Swallowing) == Swallowing == NormalizedPatch(Swallowing)
    ensures SavedMap(Swallowing) == map["aaa" := "[", NAME := "x]", PNP := "Y"] == PatchedMap(map[], Swallowing)
  {
  }

  lemma SwallowingIsListed()
    ensures ListsMap(SwallowingLines, map["aaa" := "[", NAME := "x]", PNP := "Y"])
  {
    assert SwallowingLines[1..] == [Binding(NAME, "x]"), Binding(PNP, "Y")];
    assert SwallowingLines[1..][1..] == [Binding(PNP, "Y")];
    assert MapOf([Binding(PNP, "Y")]) == map[PNP := "Y"];
  }

  /** The first two lines read as one list that ends behind the adapter name. */
  const Swallowed := [Binding("aaa", "[" + "\nadapter_name = x" + "]"), Binding(PNP, "Y")]

  lemma SwallowedText()
    ensures Print(Swallowed) == Print(SwallowingLines)
  {
    hide PrintLine;
    var first, name, pnp := SwallowingLines[0], SwallowingLines[1], SwallowingLines[2];
    assert SwallowingLines[1..] == [name, pnp] && [name, pnp][1..] == [pnp] && [pnp][1..] == [] && Swallowed[1..] == [pnp];
    SwallowedLine();
    assert PrintLine(first) + (PrintLine(name) + Print([pnp])) == (PrintLine(first) + PrintLine(name)) + Print([pnp]);
  }

  lemma SwallowedLine()
    ensures PrintLine(Swallowed[0]) == PrintLine(SwallowingLines[0]) + PrintLine(SwallowingLines[1])
  {
  }

  lemma SwallowedList()
    ensures !AdapterConsistent(Parse(Print(Swallowed)))
  {
    hide *;
    SwallowedIsPrintable();
    ParseUndoesPrint(Swallowed);
    SwallowedKeys();
  }

  lemma SwallowedKeys()
    ensures !AdapterConsistent(MapOf(Swallowed))
  {
    hide MapOf;
    MapOfKeys(Swallowed, NAME);
    MapOfKeys(Swallowed, PNP);
    assert Swallowed[1].key == PNP;
  }

  lemma SwallowedIsPrintable()
    ensures DistinctKeys(Swallowed) && AllWellFormed(Swallowed) && AllPrintable(Swallowed)
  {
    hide Printable, WellFormedKey;
    SwallowedNames();
    ListIsPrintable("\nadapter_name = x");
    PlainIsPrintable();
  }

  lemma SwallowedNames()
    ensures WellFormedKey("aaa") && WellFormedKey(PNP) && "aaa" != PNP
  {
  }

  lemma PlainIsPrintable()
    ensures Printable("Y")
  {
  }

  lemma ListIsPrintable(inner: string)
    requires '[' !in inner && ']' !in inner && '#' !in inner
    ensures Printable("[" + inner + "]")
  {
    hide ClosesAtEnd;
    ListWithoutLists(inner);
  }

  /** Brackets around text without brackets close at the end. */
  lemma ListWithoutLists(inner: string)
    requires '[' !in inner && ']' !in inner
    ensures ClosesAtEnd("[" + inner + "]")
  {
    var v := "[" + inner + "]";
    forall j | 0 < j < |v| ensures Depth(v[..j]) == 1 { OneOpen(inner, j - 1); assert v[..j] == "[" + inner[..j - 1]; }
    assert v[..|v| - 1] == "[" + inner;
  }

  lemma {:induction false} OneOpen(inner: string, n: nat)
    requires '[' !in inner && ']' !in inner && n <= |inner|
    ensures Depth("[" + inner[..n]) == 1
  {
    var s := "[" + inner[..n];
    if n == 0 {
      assert s == "[" && s[..0] == "";
    } else {
      OneOpen(inner, n - 1);
      assert s[..|s| - 1] == "[" + inner[..n - 1];
      assert inner[n - 1] in inner;
    }
  }
}
