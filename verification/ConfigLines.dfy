/** What a hand-written configuration file means, line by line, without reference to the
    parser: settings with any spacing, comments, prose, lists, and either kind of line end. */
module ConfigLines {

  import opened Wrappers
  import opened ConfigText

  /** One line without its end; `Listing` may span several. */
  datatype Item =
    | Blank(space: string)
    | Comment(indent: string, text: string)
    | Prose(indent: string, text: string, remark: string)
    | Nameless(indent: string, text: string)
    | Setting(indent: string, junk: string, key: string, left: string, right: string, value: string, remark: string)
    | Unset(indent: string, junk: string, key: string, left: string, right: string, remark: string)
    | Listing(indent: string, junk: string, key: string, left: string, right: string, value: string)

  /** An item and its line end, which only the last line may lack. */
  datatype Row = Row(item: Item, end: string)

  //////////////////// Which texts are meant ////////////////////

  predicate Blanks(s: string) { forall i | 0 <= i < |s| :: s[i] == ' ' || s[i] == '\t' }

  predicate OneLine(s: string) { forall i | 0 <= i < |s| :: s[i] != '\r' && s[i] != '\n' }

  /** Free of line ends, comments and equals signs. */
  predicate Plain(s: string) { OneLine(s) && forall i | 0 <= i < |s| :: s[i] != '#' && s[i] != '=' }

  predicate Visible(s: string) { s != "" && s[0] != ' ' && s[0] != '\t' && s[0] != '\r' && s[0] != '\n' }

  predicate Remark(s: string) { s == "" || (s[0] == '#' && OneLine(s)) }

  predicate NameCharacter(c: char) { c == '_' || 'a' <= c <= 'z' || 'A' <= c <= 'Z' || '0' <= c <= '9' }

  /** A name, and what may stand before it and is dropped, such as a byte-order mark. */
  predicate Name(junk: string, key: string) {
    && Plain(junk) && (junk != "" ==> Visible(junk)) && (forall i | 0 <= i < |junk| :: !NameCharacter(junk[i]))
    && Plain(key) && key != "" && NameCharacter(key[0]) && key[|key| - 1] != ' ' && key[|key| - 1] != '\t'
  }

  predicate Sensible(item: Item) {
    match item
    case Blank(space) => Blanks(space)
    case Comment(indent, text) => Blanks(indent) && OneLine(text)
    case Prose(indent, text, remark) => Blanks(indent) && Visible(text) && Plain(text) && Remark(remark)
    case Nameless(indent, text) => Blanks(indent) && OneLine(text)
    case Setting(indent, junk, key, left, right, value, remark) =>
      && Blanks(indent) && Name(junk, key) && Blanks(left) && Blanks(right) && Remark(remark)
      && Visible(value) && value[0] != '[' && OneLine(value) && '#' !in value
    case Unset(indent, junk, key, left, right, remark) =>
      Blanks(indent) && Name(junk, key) && Blanks(left) && Blanks(right) && Remark(remark)
    case Listing(indent, junk, key, left, right, value) =>
      && Blanks(indent) && Name(junk, key) && Blanks(left) && Blanks(right)
      && value != "" && value[0] == '[' && '#' !in value && ClosesAtEnd(value)
  }

  predicate AllSensible(lines: seq<Row>) {
    && (forall i | 0 <= i < |lines| :: Sensible(lines[i].item))
    && (forall i | 0 <= i < |lines| :: lines[i].end == "\n" || lines[i].end == "\r\n" || (lines[i].end == "" && i == |lines| - 1))
  }

  //////////////////// How they look and what they mean ////////////////////

  function Indent(item: Item): string { if item.Blank? then item.space else item.indent }

  function Content(item: Item): string {
    match item
    case Blank(_) => ""
    case Comment(_, text) => "#" + text
    case Prose(_, text, remark) => text + remark
    case Nameless(_, text) => "=" + text
    case Setting(_, junk, key, left, right, value, remark) => junk + key + left + "=" + right + value + remark
    case Unset(_, junk, key, left, right, remark) => junk + key + left + "=" + right + remark
    case Listing(_, junk, key, left, right, value) => junk + key + left + "=" + right + value
  }

  function Text(lines: seq<Row>): string {
    if lines == [] then ""
    else Indent(lines[0].item) + (Content(lines[0].item) + lines[0].end + Text(lines[1..]))
  }

  /** A setting means its value as it stands, blanks before a remark included; one that sets
      nothing visible means its blanks, if anything follows the equals sign at all. */
  function Meaning(item: Item): Option<Binding> {
    match item
    case Setting(_, _, key, _, _, value, _) => Some(Binding(key, value))
    case Unset(_, _, key, _, right, remark) => if right == "" && remark == "" then None else Some(Binding(key, right))
    case Listing(_, _, key, _, _, value) => Some(Binding(key, value))
    case _ => None
  }

  /** The first line that sets a key counts. */
  function Meant(lines: seq<Row>, vars: map<string, string>): map<string, string> {
    if lines == [] then vars
    else
      var b := Meaning(lines[0].item);
      Meant(lines[1..], if b.None? || b.value.key in vars then vars else vars[b.value.key := b.value.value])
  }

  //////////////////// One line ////////////////////

  predicate AtEnd(rest: string) { rest == "" || rest[0] in "\r\n" }

  lemma {:induction false} RemarkVanishes(value: string, remark: string)
    requires '#' !in value && Remark(remark)
    ensures StripComments(value + remark) == value
  {
    StripKeepsPrefix(value, remark);
    if remark != "" {
      StripSkipsComment(remark[1..], |remark| - 1);
      assert remark[1..][|remark| - 1..] == "";
    }
  }

  /** `t` starts with a name and an equals sign at `eq`. */
  predicate Named(t: string, junk: string, key: string, left: string, eq: nat) {
    && Name(junk, key) && Blanks(left) && eq == |junk| + |key| + |left| < |t|
    && t[..eq] == junk + key + left && t[eq] == '='
  }

  lemma NameAt(t: string, junk: string, key: string, left: string, eq: nat)
    requires Named(t, junk, key, left, eq)
    ensures t[..|junk| + |key|] == junk + key && '#' !in junk + key
    ensures !Whitespace(t[0]) && !SpaceTab(t[|junk| + |key| - 1])
    ensures forall j | |junk| + |key| <= j < eq :: SpaceTab(t[j])
    ensures forall j | 0 <= j < eq :: !Equals(t[j]) && !Hash(t[j]) && !Endline(t[j])
  {
    var name := junk + key;
    assert t[..|name|] == t[..eq][..|name|] == name;
    forall j | 0 <= j < eq ensures t[j] == (name + left)[j] { assert t[j] == t[..eq][j]; }
  }

  lemma KeyIsKept(junk: string, key: string)
    requires Name(junk, key)
    ensures NormalizeKey(junk + key) == key
  {
    hide Find;
    var name := junk + key;
    FindIs(name, 0, |name|, KeyStart, |junk|);
    assert name[|junk|..] == key;
  }

  /** The landmarks of such a text, up to the equals sign; `endc` is where the content of the line ends. */
  lemma NameReads(t: string, junk: string, key: string, left: string, eq: nat, endc: nat)
    requires Named(t, junk, key, left, eq) && eq < endc <= |t|
    ensures Find(t, 0, |t|, NotWhitespace) == 0
    ensures Find(t, 0, endc, Equals) == eq && eq > 0
    ensures TrimEnd(t, 0, eq, SpaceTab) == |junk| + |key|
    ensures StripComments(t[0..|junk| + |key|]) == junk + key
  {
    hide Find, TrimEnd, Strip, StripComments, Named;
    NameAt(t, junk, key, left, eq);
    NameIsShort(t, junk, key, left, eq);
    FindIs(t, 0, |t|, NotWhitespace, 0);
    FindIs(t, 0, endc, Equals, eq);
    TrimEndIs(t, 0, eq, SpaceTab, |junk| + |key|);
    StripNothing(junk + key);
  }

  lemma NameIsShort(t: string, junk: string, key: string, left: string, eq: nat)
    requires Named(t, junk, key, left, eq)
    ensures 0 < |junk| + |key| <= eq < |t| && t[eq] == '='
  {
  }

  /** Behind the equals sign at `eq`: blanks, a visible value from `p`, a remark at `h`, the end at `l`. */
  predicate Valued(t: string, eq: nat, p: nat, h: nat, l: nat) {
    && eq < p < h <= l <= |t|
    && (forall j | eq < j < p :: SpaceTab(t[j])) && !Whitespace(t[p])
    && (forall j | eq < j < l :: !Endline(t[j])) && (l < |t| ==> Endline(t[l]))
    && (forall j | eq < j < h :: !Hash(t[j])) && (h < l ==> Hash(t[h]))
  }

  lemma LineReads(t: string, junk: string, key: string, left: string, eq: nat, p: nat, h: nat, l: nat)
    requires Named(t, junk, key, left, eq) && Valued(t, eq, p, h, l)
    ensures var line := ScanLine(t);
            && line.begin == 0 && line.endl == l && line.eq == eq && p < line.endc
            && Find(t, eq + 1, line.endc, NotSpaceTab) == p
  {
    hide Find, TrimEnd, Named;
    NameAt(t, junk, key, left, eq);
    NameIsShort(t, junk, key, left, eq);
    FindIs(t, 0, |t|, Endline, l);
    FindIs(t, 0, l, Hash, h);
    var endc := TrimEnd(t, 0, h, Whitespace);
    VisibleIsKept(t, p, h);
    NameReads(t, junk, key, left, eq, endc);
    FindIs(t, eq + 1, endc, NotSpaceTab, p);
  }

  lemma VisibleIsKept(t: string, p: nat, h: nat)
    requires p < h <= |t| && !Whitespace(t[p])
    ensures p < TrimEnd(t, 0, h, Whitespace)
  {
    hide TrimEnd;
    var k := TrimEnd(t, 0, h, Whitespace);
    assert forall j | k <= j < h :: Whitespace(t[j]);
  }

  /** A line whose value is visible and no list. */
  lemma ValueReads(t: string, junk: string, key: string, left: string, eq: nat, p: nat, h: nat, l: nat)
    requires Named(t, junk, key, left, eq) && Valued(t, eq, p, h, l) && t[p] != '['
    ensures ParseOption(t) == (l, Some(Binding(junk + key, StripComments(t[p..l]))))
  {
    hide Find, TrimEnd, Strip, StripComments, SkipList, ScanLine, Named;
    LineReads(t, junk, key, left, eq, p, h, l);
    NameIsShort(t, junk, key, left, eq);
    NameReads(t, junk, key, left, eq, eq + 1);
  }

  lemma SettingReads(s: Item, rest: string)
    requires s.Setting? && Sensible(s) && AtEnd(rest)
    ensures ParseOption(Content(s) + rest) == (|Content(s)|, Some(Binding(s.junk + s.key, s.value)))
  {
    hide ParseOption, Strip, StripComments, Named, Valued, Name;
    var t := Content(s) + rest;
    var eq := |s.junk| + |s.key| + |s.left|;
    var p := eq + 1 + |s.right|;
    SettingShape(s, rest);
    ValueReads(t, s.junk, s.key, s.left, eq, p, p + |s.value|, |Content(s)|);
    RemarkVanishes(s.value, s.remark);
  }

  lemma SettingShape(s: Item, rest: string)
    requires s.Setting? && Sensible(s) && AtEnd(rest)
    ensures var t, eq := Content(s) + rest, |s.junk| + |s.key| + |s.left|;
            var p := eq + 1 + |s.right|;
            && Named(t, s.junk, s.key, s.left, eq) && Valued(t, eq, p, p + |s.value|, |Content(s)|)
            && t[p..|Content(s)|] == s.value + s.remark && t[p] == s.value[0] != '['
  {
    hide Name, Named, Blanks;
    var t, a := Content(s) + rest, s.junk + s.key + s.left;
    NamedParts(t, s.junk, s.key, s.left, s.right, s.value, s.remark, rest);
    assert !Whitespace(s.value[0]);
  }

  /** The parts of a line, and that its blanks, its name and its remark are such. */
  lemma NamedParts(t: string, junk: string, key: string, left: string, right: string, value: string, remark: string, rest: string)
    requires t == junk + key + left + "=" + right + value + remark + rest
    requires Name(junk, key) && Blanks(left) && Blanks(right) && Remark(remark) && AtEnd(rest)
    ensures var eq := |junk| + |key| + |left|;
            var p := eq + 1 + |right|;
            var h := p + |value|;
            var l := h + |remark|;
            && Named(t, junk, key, left, eq) && l <= |t|
            && (forall j | eq < j < p :: SpaceTab(t[j]))
            && (forall j | p <= j < h :: t[j] == value[j - p]) && t[p..l] == value + remark
            && (forall j | h <= j < l :: !Endline(t[j])) && (h < l ==> Hash(t[h]))
            && (l < |t| ==> Endline(t[l]))
  {
    hide Name;
    Parts(t, junk + key + left, right, value, remark, rest);
  }

  /** Where the parts of a line are. */
  lemma Parts(t: string, a: string, right: string, value: string, remark: string, rest: string)
    requires t == a + "=" + right + value + remark + rest
    ensures t[..|a|] == a && t[|a|] == '='
    ensures forall j | |a| < j < |a| + 1 + |right| :: t[j] == right[j - |a| - 1]
    ensures var p := |a| + 1 + |right|; t[p..p + |value| + |remark|] == value + remark
    ensures var p := |a| + 1 + |right|; forall j | p <= j < p + |value| :: t[j] == value[j - p]
    ensures var h := |a| + 1 + |right| + |value|; forall j | h <= j < h + |remark| :: t[j] == remark[j - h]
    ensures var l := |a| + 1 + |right| + |value| + |remark|; l <= |t| && (l < |t| ==> rest != "" && t[l] == rest[0]) && t[l..] == rest
  {
  }

  /** Behind the equals sign there are only blanks and perhaps a remark, at `h`. */
  lemma UnsetValueReads(t: string, junk: string, key: string, left: string, eq: nat, h: nat, l: nat)
    requires Named(t, junk, key, left, eq) && eq < h <= l <= |t|
    requires (forall j | eq < j < h :: SpaceTab(t[j])) && (h < l ==> Hash(t[h]))
    requires (forall j | eq < j < l :: !Endline(t[j])) && (l < |t| ==> Endline(t[l]))
    ensures ParseOption(t) == (l, if l == eq + 1 then None else Some(Binding(junk + key, StripComments(t[eq + 1..l]))))
  {
    hide Find, TrimEnd, Strip, StripComments, SkipList, ScanLine, Named;
    UnsetLineReads(t, junk, key, left, eq, h, l);
    NameIsShort(t, junk, key, left, eq);
    NameReads(t, junk, key, left, eq, eq + 1);
    FindIs(t, eq + 1, eq + 1, NotSpaceTab, eq + 1);
  }

  lemma UnsetLineReads(t: string, junk: string, key: string, left: string, eq: nat, h: nat, l: nat)
    requires Named(t, junk, key, left, eq) && eq < h <= l <= |t|
    requires (forall j | eq < j < h :: SpaceTab(t[j])) && (h < l ==> Hash(t[h]))
    requires (forall j | eq < j < l :: !Endline(t[j])) && (l < |t| ==> Endline(t[l]))
    ensures ScanLine(t) == Line(0, l, eq + 1, eq)
  {
    hide Find, TrimEnd, Named;
    NameAt(t, junk, key, left, eq);
    NameIsShort(t, junk, key, left, eq);
    NameReads(t, junk, key, left, eq, eq + 1);
    FindIs(t, 0, |t|, Endline, l);
    FindIs(t, 0, l, Hash, h);
    TrimEndIs(t, 0, h, Whitespace, eq + 1);
  }

  lemma UnsetReads(s: Item, rest: string)
    requires s.Unset? && Sensible(s) && AtEnd(rest)
    ensures ParseOption(Content(s) + rest) ==
            (|Content(s)|, if s.right == "" && s.remark == "" then None else Some(Binding(s.junk + s.key, s.right)))
  {
    hide ParseOption, Strip, StripComments, Named, Name;
    var t, eq := Content(s) + rest, |s.junk| + |s.key| + |s.left|;
    UnsetShape(s, rest);
    UnsetValueReads(t, s.junk, s.key, s.left, eq, eq + 1 + |s.right|, |Content(s)|);
    RemarkVanishes(s.right, s.remark);
  }

  lemma UnsetShape(s: Item, rest: string)
    requires s.Unset? && Sensible(s) && AtEnd(rest)
    ensures var t, eq, l := Content(s) + rest, |s.junk| + |s.key| + |s.left|, |Content(s)|;
            var h := eq + 1 + |s.right|;
            && Named(t, s.junk, s.key, s.left, eq) && t[eq + 1..l] == s.right + s.remark
            && (forall j | eq < j < h :: SpaceTab(t[j])) && (h < l ==> Hash(t[h]))
            && (forall j | eq < j < l :: !Endline(t[j])) && (l < |t| ==> Endline(t[l]))
  {
    hide Name, Named, Blanks, Remark, AtEnd, Content;
    UnsetText(s, rest);
    NamedParts(Content(s) + rest, s.junk, s.key, s.left, s.right, "", s.remark, rest);
    RightAndRemark(s, rest);
  }

  lemma UnsetText(s: Item, rest: string)
    requires s.Unset?
    ensures Content(s) + rest == s.junk + s.key + s.left + "=" + s.right + "" + s.remark + rest
    ensures |Content(s)| == |s.junk| + |s.key| + |s.left| + 1 + |s.right| + |s.remark|
  {
    assert s.right + "" == s.right;
    assert s.junk + s.key + s.left + "=" + s.right + "" == s.junk + s.key + s.left + "=" + s.right;
  }

  lemma RightAndRemark(s: Item, rest: string)
    requires s.Unset?
    ensures var eq := |s.junk| + |s.key| + |s.left|; (Content(s) + rest)[eq + 1..|Content(s)|] == s.right + s.remark
  {
    Parts(Content(s) + rest, s.junk + s.key + s.left, "", s.right, s.remark, rest);
  }

  /** A list is read up to the bracket that closes it, over any line ends inside. */
  lemma ListValueReads(t: string, junk: string, key: string, left: string, eq: nat, p: nat, end: nat)
    requires Named(t, junk, key, left, eq) && eq < p && p + 1 < end <= |t|
    requires (forall j | eq < j < p :: SpaceTab(t[j])) && t[p] == '[' && SkipList(t, p + 1, 1) == end
    ensures ParseOption(t) == (end, Some(Binding(junk + key, StripComments(t[p..end]))))
  {
    hide ParseOption, ReadValue, Named;
    ListOption(t, junk, key, left, eq, p);
    ListIsRead(t, t[..|junk| + |key|], p, ScanLine(t).endl, end);
  }

  lemma ListIsRead(t: string, name: string, p: nat, endl: nat, end: nat)
    requires p < endl <= |t| && p + 1 < end && t[p] == '[' && SkipList(t, p + 1, 1) == end
    ensures ReadValue(t, name, p, endl) == (end, Some(Binding(StripComments(name), StripComments(t[p..end]))))
  {
    hide Strip, StripComments, SkipList;
  }

  lemma ListOption(t: string, junk: string, key: string, left: string, eq: nat, p: nat)
    requires Named(t, junk, key, left, eq) && eq < p < |t|
    requires (forall j | eq < j < p :: SpaceTab(t[j])) && t[p] == '['
    ensures p < ScanLine(t).endl && |junk| + |key| <= |t|
    ensures ParseOption(t) == ReadValue(t, t[..|junk| + |key|], p, ScanLine(t).endl)
    ensures StripComments(t[..|junk| + |key|]) == junk + key
  {
    hide Find, TrimEnd, ReadValue, ScanLine, Named;
    ListLineReads(t, junk, key, left, eq, p);
    NameIsShort(t, junk, key, left, eq);
    NameReads(t, junk, key, left, eq, eq + 1);
    assert t[0..|junk| + |key|] == t[..|junk| + |key|];
  }

  lemma ListLineReads(t: string, junk: string, key: string, left: string, eq: nat, p: nat)
    requires Named(t, junk, key, left, eq) && eq < p < |t|
    requires (forall j | eq < j < p :: SpaceTab(t[j])) && t[p] == '['
    ensures var line := ScanLine(t);
            && line.begin == 0 && line.eq == eq && p < line.endc
            && Find(t, eq + 1, line.endc, NotSpaceTab) == p
  {
    hide Find, TrimEnd, ScanLine, Named;
    var l := Find(t, eq + 1, |t|, Endline);
    var h := Find(t, eq + 1, l, Hash);
    LineReads(t, junk, key, left, eq, p, h, l);
  }

  lemma ListingReads(s: Item, rest: string)
    requires s.Listing? && Sensible(s) && AtEnd(rest)
    ensures ParseOption(Content(s) + rest) == (|Content(s)|, Some(Binding(s.junk + s.key, s.value)))
  {
    hide ParseOption, Strip, StripComments, Named, Name, SkipList, ClosesAtEnd;
    var t, eq := Content(s) + rest, |s.junk| + |s.key| + |s.left|;
    var p := eq + 1 + |s.right|;
    ListingShape(s, rest);
    ListCloses(t, p, s.value);
    ListValueReads(t, s.junk, s.key, s.left, eq, p, p + |s.value|);
    StripNothing(s.value);
  }

  lemma ListingShape(s: Item, rest: string)
    requires s.Listing? && Sensible(s) && AtEnd(rest)
    ensures var t, eq := Content(s) + rest, |s.junk| + |s.key| + |s.left|;
            var p := eq + 1 + |s.right|;
            && Named(t, s.junk, s.key, s.left, eq) && p + |s.value| == |Content(s)| <= |t| && t[p..p + |s.value|] == s.value
            && t[p] == '[' && forall j | eq < j < p :: SpaceTab(t[j])
  {
    hide Name, Named, ClosesAtEnd, Blanks;
    assert s.value + "" == s.value;
    NamedParts(Content(s) + rest, s.junk, s.key, s.left, s.right, s.value, "", rest);
  }

  lemma ListCloses(t: string, p: nat, v: string)
    requires p + |v| <= |t| && t[p..p + |v|] == v && v != "" && v[0] == '[' && ClosesAtEnd(v)
    ensures SkipList(t, p + 1, 1) == p + |v| && |v| > 1
  {
    hide SkipList;
    var k := SkipList(t, p + 1, 1);
    assert t[p..p + 1] == "[" && "["[..0] == "" && v[..1] == "[";
    assert Depth(t[p..p + 1]) == 1;
    SkipListStops(t, p + 1, p);
    assert v[..|v|] == v;
    assert forall j | p < j <= p + |v| :: t[p..j] == v[..j - p];
    assert |v| == 1 ==> v == "[";
    assert Depth(t[p..p + |v|]) == 0;
  }

  /** Comments, prose and lines that start with an equals sign bind nothing. */
  lemma RestBindsNothing(s: Item, rest: string)
    requires (s.Comment? || s.Prose? || s.Nameless?) && Sensible(s) && AtEnd(rest)
    ensures ParseOption(Content(s) + rest) == (|Content(s)|, None)
  {
    hide ScanLine, Find, TrimEnd, StripComments, SkipList;
    if s.Comment? {
      CommentLineReads(s, rest);
    } else if s.Prose? {
      ProseLineReads(s, rest);
    } else {
      NamelessLineReads(s, rest);
    }
  }

  lemma LineEndIs(s: Item, rest: string)
    requires (s.Comment? || s.Prose? || s.Nameless?) && Sensible(s) && AtEnd(rest)
    ensures var t, l := Content(s) + rest, |Content(s)|;
            && l > 0 && Find(t, 0, |t|, NotWhitespace) == 0 && Find(t, 0, |t|, Endline) == l
            && forall j | 0 <= j < l :: t[j] == Content(s)[j]
  {
    hide Find;
    var t, l := Content(s) + rest, |Content(s)|;
    assert l < |t| ==> t[l] == rest[0];
    assert forall j | 0 <= j < l :: t[j] == Content(s)[j];
    FindIs(t, 0, |t|, NotWhitespace, 0);
    FindIs(t, 0, |t|, Endline, l);
  }

  lemma CommentLineReads(s: Item, rest: string)
    requires s.Comment? && Sensible(s) && AtEnd(rest)
    ensures ScanLine(Content(s) + rest) == Line(0, |Content(s)|, 0, 0)
  {
    hide Find, TrimEnd;
    var t := Content(s) + rest;
    LineEndIs(s, rest);
    FindIs(t, 0, |Content(s)|, Hash, 0);
    TrimEndIs(t, 0, 0, Whitespace, 0);
    FindIs(t, 0, 0, Equals, 0);
  }

  lemma ProseLineReads(s: Item, rest: string)
    requires s.Prose? && Sensible(s) && AtEnd(rest)
    ensures var line := ScanLine(Content(s) + rest); line.endl == |Content(s)| && line.eq == line.endc
  {
    hide Find, TrimEnd;
    var t := Content(s) + rest;
    LineEndIs(s, rest);
    FindIs(t, 0, |Content(s)|, Hash, |s.text|);
    var endc := TrimEnd(t, 0, |s.text|, Whitespace);
    FindIs(t, 0, endc, Equals, endc);
  }

  lemma NamelessLineReads(s: Item, rest: string)
    requires s.Nameless? && Sensible(s) && AtEnd(rest)
    ensures var line := ScanLine(Content(s) + rest); line.endl == |Content(s)| && line.eq == line.begin
  {
    hide Find, TrimEnd;
    var t := Content(s) + rest;
    LineEndIs(s, rest);
    assert t[0] == '=';
    var h := Find(t, 0, |Content(s)|, Hash);
    assert h > 0;
    VisibleIsKept(t, 0, h);
    FindIs(t, 0, TrimEnd(t, 0, h, Whitespace), Equals, 0);
  }

  //////////////////// White space between lines ////////////////////

  /** `s` is `t` with one white-space character before it. */
  predicate Spaced(s: string, t: string) {
    |s| == |t| + 1 && Whitespace(s[0]) && forall j | 0 <= j < |t| :: s[j + 1] == t[j]
  }

  lemma {:induction false} SkipListShifts(s: string, t: string, from: nat, depth: nat)
    requires Spaced(s, t) && from <= |t|
    ensures SkipList(s, from + 1, depth) == SkipList(t, from, depth) + 1
    decreases |t| - from
  {
    if from < |t| && depth != 0 {
      SkipListShifts(s, t, from + 1, if t[from] == '[' then depth + 1 else if t[from] == ']' then depth - 1 else depth);
    }
  }

  lemma FindShifts(s: string, t: string, from: nat, end: nat, p: char -> bool)
    requires Spaced(s, t) && from <= end <= |t|
    ensures Find(s, from + 1, end + 1, p) == Find(t, from, end, p) + 1
  {
    hide Find;
    var k := Find(t, from, end, p);
    assert forall j | from + 1 <= j < k + 1 :: s[j] == t[j - 1];
    assert k < end ==> s[k + 1] == t[k];
    FindIs(s, from + 1, end + 1, p, k + 1);
  }

  lemma TrimEndShifts(s: string, t: string, from: nat, end: nat, p: char -> bool)
    requires Spaced(s, t) && from <= end <= |t|
    ensures TrimEnd(s, from + 1, end + 1, p) == TrimEnd(t, from, end, p) + 1
  {
    hide TrimEnd;
    var k := TrimEnd(t, from, end, p);
    assert forall j | k + 1 <= j < end + 1 :: s[j] == t[j - 1];
    assert from < k ==> s[k] == t[k - 1];
    TrimEndIs(s, from + 1, end + 1, p, k + 1);
  }

  lemma BeginShifts(s: string, t: string)
    requires Spaced(s, t)
    ensures Find(s, 0, |s|, NotWhitespace) == Find(t, 0, |t|, NotWhitespace) + 1
  {
    hide Find;
    FindShifts(s, t, 0, |t|, NotWhitespace);
    FindIs(s, 0, |s|, NotWhitespace, Find(t, 0, |t|, NotWhitespace) + 1);
  }

  lemma ScanShifts(s: string, t: string)
    requires Spaced(s, t)
    ensures var l := ScanLine(t); ScanLine(s) == Line(l.begin + 1, l.endl + 1, l.endc + 1, l.eq + 1)
  {
    hide Find, TrimEnd, Spaced;
    SpacedLength(s, t);
    var begin := Find(t, 0, |t|, NotWhitespace);
    BeginShifts(s, t);
    var endl := Find(t, begin, |t|, Endline);
    FindShifts(s, t, begin, |t|, Endline);
    var h := Find(t, begin, endl, Hash);
    FindShifts(s, t, begin, endl, Hash);
    TrimEndShifts(s, t, begin, h, Whitespace);
    FindShifts(s, t, begin, TrimEnd(t, begin, h, Whitespace), Equals);
  }

  lemma SpacedLength(s: string, t: string)
    requires Spaced(s, t)
    ensures |s| == |t| + 1
  {
  }

  lemma SliceShifts(s: string, t: string, a: nat, b: nat)
    requires Spaced(s, t) && a <= b <= |t|
    ensures |s| == |t| + 1 && s[a + 1..b + 1] == t[a..b] && (a < |t| ==> s[a + 1] == t[a])
  {
  }

  lemma OptionShifts(s: string, t: string)
    requires Spaced(s, t)
    ensures ParseOption(s) == (ParseOption(t).0 + 1, ParseOption(t).1)
  {
    hide Find, TrimEnd, ReadValue, ScanLine, Spaced;
    var l := ScanLine(t);
    ScanShifts(s, t);
    if l.eq != l.endc && l.eq != l.begin {
      NameShifts(s, t, l);
      ReadValueShifts(s, t, t[l.begin..TrimEnd(t, l.begin, l.eq, SpaceTab)], Find(t, l.eq + 1, l.endc, NotSpaceTab), l.endl);
    }
  }

  lemma ReadValueShifts(s: string, t: string, name: string, p: nat, endl: nat)
    requires Spaced(s, t) && p <= endl <= |t|
    ensures |s| == |t| + 1
    ensures ReadValue(s, name, p + 1, endl + 1) == (ReadValue(t, name, p, endl).0 + 1, ReadValue(t, name, p, endl).1)
  {
    hide Strip, StripComments, SkipList, Spaced;
    ValueShifts(s, t, p, endl);
    if p != endl { ListShifts(s, t, p); }
  }

  lemma NameShifts(s: string, t: string, l: Line)
    requires Spaced(s, t) && l.begin <= l.eq < l.endc <= |t|
    ensures |s| == |t| + 1
    ensures var e := TrimEnd(t, l.begin, l.eq, SpaceTab);
            && TrimEnd(s, l.begin + 1, l.eq + 1, SpaceTab) == e + 1 && s[l.begin + 1..e + 1] == t[l.begin..e]
    ensures Find(s, l.eq + 2, l.endc + 1, NotSpaceTab) == Find(t, l.eq + 1, l.endc, NotSpaceTab) + 1
  {
    hide Find, TrimEnd;
    TrimEndShifts(s, t, l.begin, l.eq, SpaceTab);
    FindShifts(s, t, l.eq + 1, l.endc, NotSpaceTab);
    SliceShifts(s, t, l.begin, TrimEnd(t, l.begin, l.eq, SpaceTab));
  }

  lemma ValueShifts(s: string, t: string, p: nat, end: nat)
    requires Spaced(s, t) && p <= end <= |t|
    ensures |s| == |t| + 1 && s[p + 1..end + 1] == t[p..end] && (p < end ==> s[p + 1] == t[p])
  {
    SliceShifts(s, t, p, end);
  }

  lemma ListShifts(s: string, t: string, p: nat)
    requires Spaced(s, t) && p < |t|
    ensures |s| == |t| + 1
    ensures var end := SkipList(t, p + 1, 1); SkipList(s, p + 2, 1) == end + 1 && s[p + 1..end + 1] == t[p..end]
  {
    SkipListShifts(s, t, p + 1, 1);
    SliceShifts(s, t, p, SkipList(t, p + 1, 1));
  }

  /** White space before a line, line ends included, changes nothing. */
  lemma {:induction false} SpaceIsSkipped(space: string, t: string, vars: map<string, string>)
    requires forall i | 0 <= i < |space| :: Whitespace(space[i])
    ensures ParseFrom(space + t, vars) == ParseFrom(t, vars)
  {
    hide ParseFrom;
    if space == "" {
      assert space + t == t;
    } else {
      SpaceIsSkipped(space[1..], t, vars);
      OneSpaceIsSkipped(space + t, space[1..] + t, vars);
    }
  }

  lemma OneSpaceIsSkipped(s: string, t: string, vars: map<string, string>)
    requires Spaced(s, t)
    ensures ParseFrom(s, vars) == ParseFrom(t, vars)
  {
    hide ParseOption, Bind, AfterOption;
    OptionShifts(s, t);
    var n := ParseOption(t).0;
    RestShifts(s, t, n);
    if t == "" { EmptyBindsNothing(); }
  }

  lemma RestShifts(s: string, t: string, n: nat)
    requires Spaced(s, t) && n <= |t|
    ensures s != "" && AfterOption(s, n + 1) == AfterOption(t, n) && (t == "" ==> AfterOption(t, n) == "")
  {
    assert s[n + 1..] == t[n..];
    assert n < |t| ==> s[n + 2..] == t[n + 1..];
    assert n + 1 < |t| ==> s[n + 3..] == t[n + 2..];
  }

  lemma EmptyBindsNothing()
    ensures ParseOption("") == (0, None) && forall vars :: Bind(vars, None) == vars
  {
  }

  //////////////////// Whole files ////////////////////

  /** A line is read as it is meant, and reading goes on behind its end. */
  lemma LineIsRead(line: Row, rest: string, vars: map<string, string>)
    requires Sensible(line.item) && (line.end == "\n" || line.end == "\r\n" || (line.end == "" && rest == ""))
    ensures var b := Meaning(line.item);
            ParseFrom(Indent(line.item) + (Content(line.item) + line.end + rest), vars) ==
            ParseFrom(rest, if b.None? || b.value.key in vars then vars else vars[b.value.key := b.value.value])
  {
    hide ParseFrom;
    if line.item.Blank? {
      assert Indent(line.item) + (Content(line.item) + line.end + rest) == (line.item.space + line.end) + rest;
      SpaceIsSkipped(line.item.space + line.end, rest, vars);
    } else {
      SpaceIsSkipped(line.item.indent, Content(line.item) + line.end + rest, vars);
      ContentIsRead(line, rest, vars);
    }
  }

  lemma ContentIsRead(line: Row, rest: string, vars: map<string, string>)
    requires !line.item.Blank?
    requires Sensible(line.item) && (line.end == "\n" || line.end == "\r\n" || (line.end == "" && rest == ""))
    ensures var b := Meaning(line.item);
            ParseFrom(Content(line.item) + line.end + rest, vars) ==
            ParseFrom(rest, if b.None? || b.value.key in vars then vars else vars[b.value.key := b.value.value])
  {
    hide ParseOption, Bind, Sensible, Content, Meaning;
    var item, after := line.item, line.end + rest;
    var t := Content(item) + after;
    assert Content(item) + line.end + rest == t;
    ItemReads(item, after, vars);
    assert t[|Content(item)|..] == after;
    assert AfterOption(t, |Content(item)|) == rest;
  }

  lemma ItemReads(item: Item, after: string, vars: map<string, string>)
    requires !item.Blank? && Sensible(item) && AtEnd(after)
    ensures Content(item) != "" && ParseOption(Content(item) + after).0 == |Content(item)|
    ensures var b := Meaning(item);
            Bind(vars, ParseOption(Content(item) + after).1) ==
            if b.None? || b.value.key in vars then vars else vars[b.value.key := b.value.value]
  {
    hide ParseOption, NormalizeKey, ClosesAtEnd;
    if item.Setting? || item.Unset? || item.Listing? { KeyIsKept(item.junk, item.key); }
    hide Name, Blanks, OneLine, AtEnd, Remark, Plain;
    if item.Setting? {
      SettingReads(item, after);
    } else if item.Unset? {
      UnsetReads(item, after);
    } else if item.Listing? {
      ListingReads(item, after);
    } else {
      RestBindsNothing(item, after);
    }
    SomethingIsThere(item);
  }

  lemma SomethingIsThere(item: Item)
    requires !item.Blank? && Sensible(item)
    ensures Content(item) != "" && (item.Setting? || item.Unset? || item.Listing? ==> item.key != "")
  {
  }

  /** A file of sensible lines means what its lines mean: every setting with its value whatever
      the blanks around its name and its equals sign, and nothing else. */
  lemma {:induction false} FileIsRead(lines: seq<Row>, vars: map<string, string>)
    requires AllSensible(lines)
    ensures ParseFrom(Text(lines), vars) == Meant(lines, vars)
  {
    hide ParseFrom, Sensible, Content, Meaning, Indent;
    if lines == [] {
      ParseNothing(vars);
    } else {
      var b := Meaning(lines[0].item);
      var next := if b.None? || b.value.key in vars then vars else vars[b.value.key := b.value.value];
      assert AllSensible(lines[1..]);
      FileIsRead(lines[1..], next);
      if lines[0].end == "" { assert lines[1..] == []; }
      LineIsRead(lines[0], Text(lines[1..]), vars);
    }
  }

  lemma HandWrittenFileParses(lines: seq<Row>)
    requires AllSensible(lines)
    ensures Parse(Text(lines)) == Meant(lines, map[])
  {
    FileIsRead(lines, map[]);
  }

  /** The kind of line end makes no difference. */
  lemma LineEndsDoNotMatter(lines: seq<Row>, others: seq<Row>)
    requires AllSensible(lines) && AllSensible(others) && |lines| == |others|
    requires forall i | 0 <= i < |lines| :: lines[i].item == others[i].item
    ensures Parse(Text(lines)) == Parse(Text(others))
  {
    HandWrittenFileParses(lines);
    HandWrittenFileParses(others);
    SameItemsMeanTheSame(lines, others, map[]);
  }

  lemma {:induction false} SameItemsMeanTheSame(lines: seq<Row>, others: seq<Row>, vars: map<string, string>)
    requires |lines| == |others| && forall i | 0 <= i < |lines| :: lines[i].item == others[i].item
    ensures Meant(lines, vars) == Meant(others, vars)
  {
    hide Meaning;
    if lines != [] {
      var b := Meaning(lines[0].item);
      SameItemsMeanTheSame(lines[1..], others[1..], if b.None? || b.value.key in vars then vars else vars[b.value.key := b.value.value]);
    }
  }

  /** The line `port=47989`, without a blank anywhere. */
  lemma BareSettingParses()
    ensures Parse("port=47989\n") == map["port" := "47989"]
  {
    hide *;
    BareSettingIsSensible();
    HandWrittenFileParses(BareSetting);
    BareSettingText();
  }

  const BareSetting := [Row(Setting("", "", "port", "", "", "47989", ""), "\n")]

  lemma BareSettingIsSensible()
    ensures AllSensible(BareSetting) && Meant(BareSetting, map[]) == map["port" := "47989"]
  {
    assert BareSetting[1..] == [];
  }

  lemma BareSettingText()
    ensures Text(BareSetting) == "port=47989\n"
  {
    assert BareSetting[1..] == [];
  }

  /** A list that the file ends before closing is read as far as it goes, and a bracket alone not at all. */
  lemma UnclosedListReads(junk: string, key: string, left: string, right: string, value: string)
    requires Name(junk, key) && Blanks(left) && Blanks(right)
    requires value != "" && value[0] == '[' && '#' !in value && forall j | 0 < j <= |value| :: Depth(value[..j]) > 0
    ensures Parse(junk + key + left + "=" + right + value) == if value == "[" then map[] else map[key := value]
  {
    hide ParseOption, Strip, StripComments, Named, Name, NormalizeKey, SkipList;
    var t, eq := junk + key + left + "=" + right + value, |junk| + |key| + |left|;
    var p := eq + 1 + |right|;
    assert t == junk + key + left + "=" + right + value + "" + "";
    NamedParts(t, junk, key, left, right, value, "", "");
    assert value + "" == value && |t| == p + |value|;
    UnclosedListEnds(t, p, value);
    OpenListReads(t, junk, key, left, eq, p);
    StripNothing(value);
    KeyIsKept(junk, key);
    NameIsSome(junk, key);
    assert AfterOption(t, |t|) == "";
    ParseNothing(map[]);
    ParseNothing(map[key := value]);
  }

  lemma NameIsSome(junk: string, key: string)
    requires Name(junk, key)
    ensures key != ""
  {
  }

  lemma UnclosedListEnds(t: string, p: nat, v: string)
    requires p + |v| == |t| && t[p..] == v && v != "" && v[0] == '[' && forall j | 0 < j <= |v| :: Depth(v[..j]) > 0
    ensures SkipList(t, p + 1, 1) == |t|
  {
    hide SkipList;
    var k := SkipList(t, p + 1, 1);
    assert t[p..p + 1] == "[" && "["[..0] == "";
    assert Depth(t[p..p + 1]) == 1;
    SkipListStops(t, p + 1, p);
    assert t[p..k] == v[..k - p];
  }

  lemma OpenListReads(t: string, junk: string, key: string, left: string, eq: nat, p: nat)
    requires Named(t, junk, key, left, eq) && eq < p < |t| && SkipList(t, p + 1, 1) == |t|
    requires (forall j | eq < j < p :: SpaceTab(t[j])) && t[p] == '['
    ensures ParseOption(t) == (|t|, if |t| == p + 1 then None else Some(Binding(junk + key, StripComments(t[p..]))))
  {
    hide ParseOption, ReadValue, Named;
    ListOption(t, junk, key, left, eq, p);
    OpenListIsRead(t, t[..|junk| + |key|], p, ScanLine(t).endl);
  }

  lemma OpenListIsRead(t: string, name: string, p: nat, endl: nat)
    requires p < endl <= |t| && t[p] == '[' && SkipList(t, p + 1, 1) == |t|
    ensures ReadValue(t, name, p, endl) ==
            (|t|, if |t| == p + 1 then None else Some(Binding(StripComments(name), StripComments(t[p..]))))
  {
    hide Strip, StripComments, SkipList;
    assert t[p..|t|] == t[p..];
  }

  //////////////////// Lists in lists ////////////////////

  /** What stands between two brackets: text, and lists again. */
  datatype Piece = Chars(text: string) | Nested(pieces: seq<Piece>)

  function ListText(ps: seq<Piece>): string
    decreases ps, 1
  {
    "[" + InnerText(ps) + "]"
  }

  function InnerText(ps: seq<Piece>): string
    decreases ps, 0
  {
    if ps == [] then "" else (match ps[0] case Chars(text) => text case Nested(qs) => ListText(qs)) + InnerText(ps[1..])
  }

  predicate NoBrackets(ps: seq<Piece>) {
    forall i | 0 <= i < |ps| ::
      match ps[i]
      case Chars(text) => '[' !in text && ']' !in text
      case Nested(qs) => NoBrackets(qs)
  }

  /** Lists of any nesting, over any number of lines, are closed by their last bracket and not before. */
  lemma {:induction false} ListTextCloses(ps: seq<Piece>)
    requires NoBrackets(ps)
    ensures ClosesAtEnd(ListText(ps)) && Depth(ListText(ps)) == 0
    decreases ps, 1
  {
    var v, inner := ListText(ps), InnerText(ps);
    InnerTextIsLevel(ps);
    DepthOfBracket();
    forall j | 0 < j < |v| ensures Depth(v[..j]) > 0 {
      assert v[..j] == "[" + inner[..j - 1];
      DepthConcat("[", inner[..j - 1]);
    }
    DepthConcat("[" + inner, "]");
    DepthConcat("[", inner);
    assert inner[..|inner|] == inner;
  }

  lemma DepthOfBracket()
    ensures Depth("[") == 1 && Depth("]") == -1
  {
    assert "["[..0] == "" && "]"[..0] == "";
  }

  /** Inside, brackets never close more than they open, and end level. */
  lemma {:induction false} InnerTextIsLevel(ps: seq<Piece>)
    requires NoBrackets(ps)
    ensures Depth(InnerText(ps)) == 0
    ensures forall j | 0 <= j <= |InnerText(ps)| :: Depth(InnerText(ps)[..j]) >= 0
    decreases ps, 0
  {
    if ps != [] {
      assert NoBrackets(ps[1..]);
      InnerTextIsLevel(ps[1..]);
      var first := match ps[0] case Chars(text) => text case Nested(qs) => ListText(qs);
      match ps[0] {
        case Chars(text) => TextIsLevel(text);
        case Nested(qs) => ListTextCloses(qs);
      }
      assert first[..|first|] == first && first[..0] == "";
      LevelConcat(first, InnerText(ps[1..]));
    }
  }

  lemma LevelConcat(a: string, b: string)
    requires Depth(a) == 0 == Depth(b)
    requires (forall j | 0 <= j <= |a| :: Depth(a[..j]) >= 0) && (forall j | 0 <= j <= |b| :: Depth(b[..j]) >= 0)
    ensures Depth(a + b) == 0 && forall j | 0 <= j <= |a + b| :: Depth((a + b)[..j]) >= 0
  {
    DepthConcat(a, b);
    forall j | 0 <= j <= |a + b| ensures Depth((a + b)[..j]) >= 0 {
      if j <= |a| {
        assert (a + b)[..j] == a[..j];
      } else {
        assert (a + b)[..j] == a + b[..j - |a|];
        DepthConcat(a, b[..j - |a|]);
      }
    }
  }

  lemma {:induction false} TextIsLevel(text: string)
    requires '[' !in text && ']' !in text
    ensures Depth(text) == 0 && forall j | 0 <= j <= |text| :: Depth(text[..j]) == 0
  {
    if text != "" {
      var init := text[..|text| - 1];
      TextIsLevel(init);
      assert forall j | 0 <= j < |text| :: text[..j] == init[..j];
      assert text[..|text|] == text && text[|text| - 1] in text;
    }
  }

  lemma {:induction false} DepthConcat(a: string, b: string)
    ensures Depth(a + b) == Depth(a) + Depth(b)
  {
    if b == "" {
      assert a + b == a;
    } else {
      assert (a + b)[..|a + b| - 1] == a + b[..|b| - 1];
      DepthConcat(a, b[..|b| - 1]);
    }
  }
}
