/** The configuration file format: a hand-written parser with comments and bracketed
    lists, the "key = value" printer that the save and patch handlers share, and exactly
    which values survive being printed and parsed again. */
module ConfigText {

  import opened Wrappers

  //////////////////// Characters ////////////////////

  predicate Endline(c: char) { c == '\r' || c == '\n' }

  predicate SpaceTab(c: char) { c == ' ' || c == '\t' }

  predicate Whitespace(c: char) { SpaceTab(c) || Endline(c) }

  predicate NotWhitespace(c: char) { !Whitespace(c) }

  predicate NotSpaceTab(c: char) { !SpaceTab(c) }

  predicate Hash(c: char) { c == '#' }

  predicate Equals(c: char) { c == '=' }

  /** ASCII letter, digit or underscore. */
  predicate KeyStart(c: char) {
    'a' <= c <= 'z' || 'A' <= c <= 'Z' || '0' <= c <= '9' || c == '_'
  }

  //////////////////// Searching ////////////////////

  /** First position in `t[from..end]` whose character satisfies `p`, else `end`. */
  function Find(t: string, from: nat, end: nat, p: char -> bool): (k: nat)
    requires from <= end <= |t|
    ensures from <= k <= end
    ensures forall j | from <= j < k :: !p(t[j])
    ensures k < end ==> p(t[k])
    decreases end - from
  {
    if from == end || p(t[from]) then from else Find(t, from + 1, end, p)
  }

  /** Where `t[from..end]` ends once trailing characters satisfying `p` are dropped. */
  function TrimEnd(t: string, from: nat, end: nat, p: char -> bool): (k: nat)
    requires from <= end <= |t|
    ensures from <= k <= end
    ensures forall j | k <= j < end :: p(t[j])
    ensures from < k ==> !p(t[k - 1])
    decreases end
  {
    if from == end || !p(t[end - 1]) then end else TrimEnd(t, from, end - 1, p)
  }

  /** The results of both searches are determined by what they promise. */
  lemma FindIs(t: string, from: nat, end: nat, p: char -> bool, k: nat)
    requires from <= k <= end <= |t|
    requires forall j | from <= j < k :: !p(t[j])
    requires k < end ==> p(t[k])
    ensures Find(t, from, end, p) == k
    decreases end - from
  {
  }

  lemma TrimEndIs(t: string, from: nat, end: nat, p: char -> bool, k: nat)
    requires from <= k <= end <= |t|
    requires forall j | k <= j < end :: p(t[j])
    requires from < k ==> !p(t[k - 1])
    ensures TrimEnd(t, from, end, p) == k
    decreases end
  {
  }

  //////////////////// Comments ////////////////////

  /** Reads character by character: a '#' starts a comment, the end of the line ends it. */
  function Strip(s: string, inComment: bool): (r: string)
    ensures '#' !in r
  {
    if s == "" then ""
    else if Endline(s[0]) then [s[0]] + Strip(s[1..], false)
    else if inComment || s[0] == '#' then Strip(s[1..], true)
    else [s[0]] + Strip(s[1..], false)
  }

  function StripComments(s: string): (r: string)
    ensures '#' !in r
  {
    Strip(s, false)
  }

  /** Text before the first comment is kept as it is. */
  lemma {:induction false} StripKeepsPrefix(a: string, b: string)
    requires '#' !in a
    ensures StripComments(a + b) == a + StripComments(b)
  {
    if a == "" {
      assert a + b == b;
    } else {
      StripKeepsPrefix(a[1..], b);
      assert (a + b)[1..] == a[1..] + b;
    }
  }

  lemma StripNothing(a: string)
    requires '#' !in a
    ensures StripComments(a) == a
  {
    StripKeepsPrefix(a, "");
    assert a + "" == a;
  }

  lemma {:induction false} StripSkipsComment(s: string, k: nat)
    requires k <= |s| && (forall j | 0 <= j < k :: !Endline(s[j])) && (k < |s| ==> Endline(s[k]))
    ensures Strip(s, true) == StripComments(s[k..])
  {
    if k == 0 {
      assert s[0..] == s;
    } else {
      StripSkipsComment(s[1..], k - 1);
      assert s[1..][k - 1..] == s[k..];
    }
  }

  /** The program's loop: copy up to the next comment, then go on at the end of its line. */
  method ToString(s: string) returns (result: string)
    ensures result == StripComments(s)
  {
    hide Strip;
    result := "";
    var pos := 0;
    StripNothing("");
    assert s[0..] == s;
    while pos != |s|
      invariant pos <= |s|
      invariant result + StripComments(s[pos..]) == StripComments(s)
      invariant pos == 0 || pos == |s| || Endline(s[pos])
      decreases |s| - pos, pos == 0
    {
      var comment := Find(s, pos, |s|, Hash);
      var endl := Find(s, comment, |s|, Endline);
      CopyThenSkip(s, pos, comment, endl);
      result := result + s[pos..comment];
      pos := endl;
    }
    assert s[pos..] == "";
  }

  lemma CopyThenSkip(s: string, pos: nat, comment: nat, endl: nat)
    requires pos <= comment <= endl <= |s|
    requires (forall j | pos <= j < comment :: !Hash(s[j])) && (comment < |s| ==> Hash(s[comment]))
    requires (forall j | comment <= j < endl :: !Endline(s[j])) && (endl < |s| ==> Endline(s[endl]))
    ensures StripComments(s[pos..]) == s[pos..comment] + StripComments(s[endl..])
  {
    var tail := s[comment..];
    StripKeepsPrefix(s[pos..comment], tail);
    assert s[pos..] == s[pos..comment] + tail;
    if comment < |s| {
      StripSkipsComment(tail[1..], endl - comment - 1);
      assert tail[1..][endl - comment - 1..] == s[endl..];
    } else {
      assert s[endl..] == tail;
    }
  }

  //////////////////// Lists ////////////////////

  /** Position behind the bracket that brings `depth` open brackets to zero, else the end. */
  function SkipList(t: string, from: nat, depth: nat): (k: nat)
    requires from <= |t|
    ensures from <= k <= |t|
    decreases |t| - from
  {
    if from == |t| || depth == 0 then from
    else SkipList(t, from + 1, if t[from] == '[' then depth + 1 else if t[from] == ']' then depth - 1 else depth)
  }

  method SkipListLoop(t: string, from: nat) returns (skipper: nat)
    requires from <= |t|
    ensures skipper == SkipList(t, from, 1)
  {
    skipper := from;
    var stack := 1;
    while skipper != |t| && stack != 0
      invariant from <= skipper <= |t| && 0 <= stack
      invariant SkipList(t, skipper, stack) == SkipList(t, from, 1)
      decreases |t| - skipper
    {
      if t[skipper] == '[' {
        stack := stack + 1;
      } else if t[skipper] == ']' {
        stack := stack - 1;
      }
      skipper := skipper + 1;
    }
  }

  /** Opening minus closing brackets. */
  function Depth(s: string): int {
    if s == "" then 0
    else Depth(s[..|s| - 1]) + (if s[|s| - 1] == '[' then 1 else if s[|s| - 1] == ']' then -1 else 0)
  }

  /** The first bracket of `v` is closed by its last character, and not before. */
  predicate ClosesAtEnd(v: string) {
    Depth(v) == 0 && forall j | 0 < j < |v| :: Depth(v[..j]) > 0
  }

  /** Skipping stops at the first position where the brackets balance, if there is one. */
  lemma {:induction false} SkipListStops(t: string, from: nat, at: nat)
    requires at <= from <= |t|
    requires forall j | at < j < from :: Depth(t[at..j]) > 0
    requires at < from ==> Depth(t[at..from]) >= 0
    requires at < from
    ensures var k := SkipList(t, from, Depth(t[at..from]));
            && (forall j | at < j < k :: Depth(t[at..j]) > 0)
            && (Depth(t[at..k]) == 0 || (k == |t| && Depth(t[at..k]) > 0))
    decreases |t| - from
  {
    if from < |t| && Depth(t[at..from]) != 0 {
      assert t[at..from + 1][..from - at] == t[at..from];
      SkipListStops(t, from + 1, at);
    }
  }

  //////////////////// Parsing ////////////////////

  datatype Binding = Binding(key: string, value: string)

  /** The landmarks of the line a text starts with, after leading white space: where it
      begins and ends, where its content ends, and where its '=' is. */
  datatype Line = Line(begin: nat, endl: nat, endc: nat, eq: nat)

  function ScanLine(t: string): (l: Line)
    ensures l.begin <= l.eq <= l.endc <= l.endl <= |t|
    ensures l.eq < l.endc ==> t[l.eq] == '='
  {
    var begin := Find(t, 0, |t|, NotWhitespace);
    var endl := Find(t, begin, |t|, Endline);
    var endc := TrimEnd(t, begin, Find(t, begin, endl, Hash), Whitespace);
    Line(begin, endl, endc, Find(t, begin, endc, Equals))
  }

  /** Reads one option from the start of `t`: how far it got, and the binding if there is one. */
  function ParseOption(t: string): (r: (nat, Option<Binding>))
    ensures r.0 <= |t|
    ensures r.1.Some? ==> '#' !in r.1.value.key && '#' !in r.1.value.value
  {
    var l := ScanLine(t);
    if l.eq == l.endc || l.eq == l.begin then (l.endl, None)
    else
      var endName := TrimEnd(t, l.begin, l.eq, SpaceTab);
      ReadValue(t, t[l.begin..endName], Find(t, l.eq + 1, l.endc, NotSpaceTab), l.endl)
  }

  /** Reads the value that starts at `beginVal` on a line that ends at `endl`; a list may go on behind it. */
  function ReadValue(t: string, name: string, beginVal: nat, endl: nat): (r: (nat, Option<Binding>))
    requires beginVal <= endl <= |t|
    ensures r.0 <= |t|
    ensures r.1.Some? ==> '#' !in r.1.value.key && '#' !in r.1.value.value
  {
    if beginVal == endl then (endl, None)
    else if t[beginVal] == '[' then
      var end := SkipList(t, beginVal + 1, 1);
      if end == |t| && |t| == beginVal + 1 then (end, None)
      else (end, Some(Binding(StripComments(name), StripComments(t[beginVal..end]))))
    else (endl, Some(Binding(StripComments(name), StripComments(t[beginVal..endl]))))
  }

  /** Drops everything before the first letter, digit or underscore. */
  function NormalizeKey(key: string): (k: string)
    ensures k != "" ==> KeyStart(k[0])
  {
    key[Find(key, 0, |key|, KeyStart)..]
  }

  /** What is left after an option that ended at `n`: the line end is skipped, a CR together
      with the character after it. */
  function AfterOption(t: string, n: nat): (rest: string)
    requires n <= |t|
    ensures t != "" ==> |rest| < |t|
  {
    if n == |t| then ""
    else if t[n] == '\r' && n + 2 <= |t| then t[n + 2..]
    else if t[n] == '\r' then ""
    else t[n + 1..]
  }

  /** The first binding of a key is the one that counts. */
  function Bind(vars: map<string, string>, b: Option<Binding>): map<string, string> {
    if b.None? || NormalizeKey(b.value.key) == "" || NormalizeKey(b.value.key) in vars then vars
    else vars[NormalizeKey(b.value.key) := b.value.value]
  }

  function ParseFrom(t: string, vars: map<string, string>): map<string, string>
    decreases |t|
  {
    if t == "" then vars
    else
      var (n, b) := ParseOption(t);
      ParseFrom(AfterOption(t, n), Bind(vars, b))
  }

  function Parse(content: string): map<string, string> { ParseFrom(content, map[]) }

  method ParseConfig(content: string) returns (vars: map<string, string>)
    ensures vars == Parse(content)
  {
    hide ParseOption, NormalizeKey, ParseFrom, AfterOption;
    vars := map[];
    var pos := 0;
    assert content[0..] == content;
    while pos < |content|
      invariant 0 <= pos
      invariant ParseFrom(if pos <= |content| then content[pos..] else "", vars) == Parse(content)
      decreases |content| - pos
    {
      var t := content[pos..];
      var (n, b) := ParseOption(t);
      OptionAdvances(content, pos, vars);
      pos := pos + n;
      if pos != |content| {
        pos := pos + (if content[pos] == '\r' then 2 else 1);
      }
      if b.Some? {
        var key := NormalizeKey(b.value.key);
        if key != "" && key !in vars {
          vars := vars[key := b.value.value];
        }
      }
    }
    ParseNothing(vars);
    if pos == |content| { assert content[pos..] == ""; }
  }

  lemma ParseNothing(vars: map<string, string>)
    ensures ParseFrom("", vars) == vars
  {
  }

  /** One turn of the loop: the position moves behind the option and its line end. */
  lemma OptionAdvances(content: string, pos: nat, vars: map<string, string>)
    requires pos < |content|
    ensures var t := content[pos..];
            var (n, b) := ParseOption(t);
            var at := pos + n;
            && at <= |content|
            && ParseFrom(t, vars) == ParseFrom(AfterOption(t, n), Bind(vars, b))
            && var next := if at == |content| then at else if content[at] == '\r' then at + 2 else at + 1;
               AfterOption(t, n) == if next <= |content| then content[next..] else ""
  {
    hide ParseOption, Bind;
  }

  //////////////////// Printing ////////////////////

  function PrintLine(b: Binding): string { b.key + " = " + b.value + "\n" }

  function Print(bs: seq<Binding>): string {
    if bs == [] then "" else PrintLine(bs[0]) + Print(bs[1..])
  }

  /** Keys as the parser produces them. */
  predicate WellFormedKey(k: string) {
    && k != "" && KeyStart(k[0]) && !SpaceTab(k[|k| - 1])
    && forall j | 0 <= j < |k| :: !Endline(k[j]) && !Hash(k[j]) && !Equals(k[j])
  }

  /** Values that survive: not empty, no leading blank, no '#', and either one line or a
      bracketed list that closes at its very end. */
  predicate Printable(v: string) {
    && v != "" && !SpaceTab(v[0]) && '#' !in v
    && if v[0] == '[' then ClosesAtEnd(v) else forall j | 0 <= j < |v| :: !Endline(v[j])
  }

  /** `t` starts with the printed form of `b`. */
  predicate Printed(t: string, b: Binding) {
    var p := ValueAt(b);
    && p + |b.value| < |t|
    && t[..|b.key|] == b.key
    && t[p - 3] == ' ' && t[p - 2] == '=' && t[p - 1] == ' '
    && t[p..p + |b.value|] == b.value
    && t[p + |b.value|] == '\n'
  }

  /** Where the value of a printed line begins. */
  function ValueAt(b: Binding): nat { |b.key| + 3 }

  lemma PrintLineIsPrinted(b: Binding, rest: string)
    ensures Printed(PrintLine(b) + rest, b)
    ensures (PrintLine(b) + rest)[ValueAt(b) + |b.value| + 1..] == rest
  {
  }

  /** Where the line that holds the value ends, where a comment on it begins, and where its content ends. */
  function LineEnd(t: string, b: Binding): (endl: nat)
    requires Printed(t, b)
    ensures ValueAt(b) <= endl <= ValueAt(b) + |b.value| && Endline(t[endl])
    ensures forall j | ValueAt(b) <= j < endl :: !Endline(t[j])
  {
    Find(t, ValueAt(b), |t|, Endline)
  }

  function CommentStart(t: string, b: Binding): (hash: nat)
    requires Printed(t, b)
    ensures ValueAt(b) <= hash <= LineEnd(t, b)
    ensures forall j | ValueAt(b) <= j < hash :: !Hash(t[j])
    ensures hash < LineEnd(t, b) ==> Hash(t[hash])
  {
    Find(t, ValueAt(b), LineEnd(t, b), Hash)
  }

  function ContentEnd(t: string, b: Binding): (endc: nat)
    requires Printed(t, b)
    ensures ValueAt(b) - 1 <= endc <= CommentStart(t, b)
    ensures forall j | endc <= j < CommentStart(t, b) :: Whitespace(t[j])
    ensures !Whitespace(t[endc - 1])
  {
    var endc := TrimEnd(t, 0, CommentStart(t, b), Whitespace);
    assert !Whitespace(t[ValueAt(b) - 2]);
    assert endc >= ValueAt(b) - 1;
    endc
  }

  lemma KeyPart(t: string, b: Binding, j: nat)
    requires Printed(t, b) && WellFormedKey(b.key) && j < |b.key|
    ensures t[j] == b.key[j] && !Endline(t[j]) && !Hash(t[j]) && !Equals(t[j])
  {
  }

  /** The landmarks of a printed line. */
  lemma PrintedLine(t: string, b: Binding)
    requires Printed(t, b) && WellFormedKey(b.key)
    ensures ScanLine(t) == Line(0, LineEnd(t, b), ContentEnd(t, b), ValueAt(b) - 2)
    ensures TrimEnd(t, 0, ValueAt(b) - 2, SpaceTab) == |b.key|
  {
    hide Find, TrimEnd, Printed, WellFormedKey;
    PrintedStart(t, b);
    PrintedName(t, b);
    TrimEndIs(t, 0, CommentStart(t, b), Whitespace, ContentEnd(t, b));
  }

  lemma PrintedStart(t: string, b: Binding)
    requires Printed(t, b) && WellFormedKey(b.key)
    ensures Find(t, 0, |t|, NotWhitespace) == 0
    ensures Find(t, 0, |t|, Endline) == LineEnd(t, b) && Find(t, 0, LineEnd(t, b), Hash) == CommentStart(t, b)
  {
    hide Find;
    PrintedCharacters(t, b);
    FindIs(t, 0, |t|, NotWhitespace, 0);
    FindIs(t, 0, |t|, Endline, LineEnd(t, b));
    FindIs(t, 0, LineEnd(t, b), Hash, CommentStart(t, b));
  }

  lemma PrintedName(t: string, b: Binding)
    requires Printed(t, b) && WellFormedKey(b.key)
    ensures Find(t, 0, ContentEnd(t, b), Equals) == ValueAt(b) - 2
    ensures TrimEnd(t, 0, ValueAt(b) - 2, SpaceTab) == |b.key|
  {
    hide Find, TrimEnd;
    PrintedCharacters(t, b);
    FindIs(t, 0, ContentEnd(t, b), Equals, ValueAt(b) - 2);
    TrimEndIs(t, 0, ValueAt(b) - 2, SpaceTab, |b.key|);
  }

  lemma PrintedCharacters(t: string, b: Binding)
    requires Printed(t, b) && WellFormedKey(b.key)
    ensures forall j | 0 <= j < ValueAt(b) - 2 :: !Endline(t[j]) && !Hash(t[j]) && !Equals(t[j])
    ensures !Whitespace(t[0]) && !SpaceTab(t[|b.key| - 1])
  {
    forall j | 0 <= j < |b.key| ensures t[j] == b.key[j] && !Endline(t[j]) && !Hash(t[j]) && !Equals(t[j]) {
      KeyPart(t, b, j);
    }
  }

  /** Where the value that is read back begins. */
  function ReadStart(t: string, b: Binding): (start: nat)
    requires Printed(t, b)
    ensures ValueAt(b) - 1 <= start < LineEnd(t, b) || start == ValueAt(b) - 1
    ensures start <= ContentEnd(t, b)
    ensures start < ContentEnd(t, b) ==> !SpaceTab(t[start])
    ensures forall j | ValueAt(b) - 1 <= j < start :: SpaceTab(t[j])
    ensures ContentEnd(t, b) > ValueAt(b) - 1 ==> start < ContentEnd(t, b)
  {
    var start := Find(t, ValueAt(b) - 1, ContentEnd(t, b), NotSpaceTab);
    assert ContentEnd(t, b) > ValueAt(b) - 1 ==> NotSpaceTab(t[ContentEnd(t, b) - 1]);
    start
  }

  /** Where the value that is read back ends. */
  function ReadEnd(t: string, b: Binding): (end: nat)
    requires Printed(t, b)
    ensures ReadStart(t, b) < end <= |t|
  {
    if t[ReadStart(t, b)] == '[' then SkipList(t, ReadStart(t, b) + 1, 1) else LineEnd(t, b)
  }

  /** A printed line always yields a binding of its key. */
  lemma PrintedBinding(t: string, b: Binding)
    requires Printed(t, b) && WellFormedKey(b.key)
    ensures ParseOption(t) == (ReadEnd(t, b), Some(Binding(b.key, StripComments(t[ReadStart(t, b)..ReadEnd(t, b)]))))
  {
    hide TrimEnd, Find, SkipList, Strip, StripComments, ScanLine;
    PrintedLine(t, b);
    assert t[0..|b.key|] == b.key;
    forall j | 0 <= j < |b.key| ensures b.key[j] != '#' { KeyPart(t, b, j); }
    StripNothing(b.key);
  }

  /** Where a value that starts with '[' is cut off: behind it exactly when it closes at its end. */
  lemma ListEnd(t: string, p: nat, v: string)
    requires p + |v| < |t| && t[p..p + |v|] == v && v != "" && v[0] == '['
    ensures SkipList(t, p + 1, 1) == p + |v| <==> ClosesAtEnd(v)
  {
    hide SkipList;
    var k := SkipList(t, p + 1, 1);
    assert t[p..p + 1] == "[" && "["[..0] == "";
    assert Depth(t[p..p + 1]) == 1;
    SkipListStops(t, p + 1, p);
    assert forall j | p < j <= p + |v| :: t[p..j] == v[..j - p];
    assert v[..|v|] == v;
    if k == p + |v| {
      forall j | 0 < j < |v| ensures Depth(v[..j]) > 0 {
        assert Depth(t[p..p + j]) > 0;
      }
    }
  }

  /** A value with a visible first character is read from its beginning. */
  lemma VisibleStart(t: string, b: Binding)
    requires Printed(t, b) && b.value != "" && !Whitespace(b.value[0]) && b.value[0] != '#'
    ensures ReadStart(t, b) == ValueAt(b) && t[ValueAt(b)] == b.value[0]
  {
  }

  /** A printable value is read back as it is. */
  lemma PrintableParses(t: string, b: Binding)
    requires Printed(t, b) && WellFormedKey(b.key) && Printable(b.value)
    ensures ParseOption(t) == (ValueAt(b) + |b.value|, Some(b))
  {
    hide TrimEnd, Find, SkipList, Strip, StripComments, ParseOption, ClosesAtEnd, ReadStart, ContentEnd, LineEnd;
    var p, v := ValueAt(b), b.value;
    assert !Endline(v[0]);
    VisibleStart(t, b);
    PrintedBinding(t, b);
    StripNothing(v);
    if v[0] == '[' {
      ListEnd(t, p, v);
    } else {
      forall j | p <= j < p + |v| ensures !Endline(t[j]) {
        assert t[j] == t[p..p + |v|][j - p];
      }
    }
  }

  /** Any other value is read back as something else. */
  lemma UnprintableChanges(t: string, b: Binding)
    requires Printed(t, b) && WellFormedKey(b.key) && !Printable(b.value)
    ensures ParseOption(t).1.Some?
    ensures ParseOption(t).1.value.key == b.key && ParseOption(t).1.value.value != b.value
  {
    hide TrimEnd, Find, SkipList, Strip, ParseOption, ClosesAtEnd;
    PrintedBinding(t, b);
    var v := b.value;
    if '#' !in v {
      if v == "" || Whitespace(v[0]) {
        BlankStartChanges(t, b);
      } else {
        CutOffChanges(t, b);
      }
    }
  }

  /** A value without comment that starts with a visible character is cut off too early or too late. */
  lemma CutOffChanges(t: string, b: Binding)
    requires Printed(t, b) && !Printable(b.value)
    requires '#' !in b.value && b.value != "" && !Whitespace(b.value[0])
    ensures StripComments(t[ReadStart(t, b)..ReadEnd(t, b)]) != b.value
  {
    hide TrimEnd, Find, SkipList, Strip, StripComments, ClosesAtEnd;
    var p, v := ValueAt(b), b.value;
    VisibleStart(t, b);
    var end := ReadEnd(t, b);
    if v[0] == '[' {
      ListEnd(t, p, v);
    }
    assert end != p + |v|;
    if end < p + |v| {
      assert t[p..end] == v[..end - p];
      StripNothing(v[..end - p]);
    } else {
      assert t[p..end] == v + t[p + |v|..end];
      StripKeepsPrefix(v, t[p + |v|..end]);
      StripKeepsFirst(t[p + |v|..end]);
    }
  }

  lemma StripKeepsFirst(s: string)
    requires s != "" && s[0] != '#'
    ensures StripComments(s) != "" && StripComments(s)[0] == s[0]
  {
  }

  /** An empty value, or one with a leading blank or line end, is read with a different beginning or length. */
  lemma BlankStartChanges(t: string, b: Binding)
    requires Printed(t, b) && '#' !in b.value && (b.value == "" || Whitespace(b.value[0]))
    ensures StripComments(t[ReadStart(t, b)..ReadEnd(t, b)]) != b.value
  {
    hide TrimEnd, Find, SkipList, Strip, StripComments, ReadStart, ContentEnd, CommentStart, LineEnd;
    var p, v := ValueAt(b), b.value;
    var start, end, endl := ReadStart(t, b), ReadEnd(t, b), LineEnd(t, b);
    if start == p - 1 {
      assert end == endl;
      assert t[start..end] == " " + v[..endl - p];
      StripNothing(" " + v[..endl - p]);
      if endl < p + |v| {
        assert t[endl] == t[p..p + |v|][endl - p];
        assert endl > p ==> t[endl - 1] == t[p..p + |v|][endl - p - 1];
      }
    } else {
      assert start < ContentEnd(t, b) <= CommentStart(t, b) <= endl;
      assert !SpaceTab(t[start]) && !Hash(t[start]) && v != "";
      assert v[0] == t[p..p + |v|][0] == t[p];
      assert t[start..end][0] == t[start];
      StripKeepsFirst(t[start..end]);
    }
  }

  //////////////////// Whole files ////////////////////

  lemma WellFormedKeyIsNormal(k: string)
    requires WellFormedKey(k)
    ensures NormalizeKey(k) == k
  {
  }

  /** Parsing never forgets or changes a binding it has made. */
  lemma {:induction false} ParseKeepsBindings(t: string, vars: map<string, string>, k: string)
    requires k in vars
    ensures k in ParseFrom(t, vars) && ParseFrom(t, vars)[k] == vars[k]
    decreases |t|
  {
    hide ParseOption, AfterOption;
    if t != "" {
      var (n, b) := ParseOption(t);
      ParseKeepsBindings(AfterOption(t, n), Bind(vars, b), k);
    }
  }

  /** The bindings as a map; keys are distinct where this is used. */
  function MapOf(bs: seq<Binding>): map<string, string> {
    if bs == [] then map[] else MapOf(bs[1..])[bs[0].key := bs[0].value]
  }

  predicate DistinctKeys(bs: seq<Binding>) {
    forall i, j | 0 <= i < j < |bs| :: bs[i].key != bs[j].key
  }

  predicate AllPrintable(bs: seq<Binding>) { forall i | 0 <= i < |bs| :: Printable(bs[i].value) }

  predicate AllWellFormed(bs: seq<Binding>) { forall i | 0 <= i < |bs| :: WellFormedKey(bs[i].key) }

  lemma {:induction false} MapOfKeys(bs: seq<Binding>, k: string)
    ensures k in MapOf(bs) <==> exists i :: 0 <= i < |bs| && bs[i].key == k
  {
    if bs != [] {
      MapOfKeys(bs[1..], k);
      if i :| 0 <= i < |bs| && bs[i].key == k && i > 0 { assert bs[1..][i - 1].key == k; }
      if i :| 0 <= i < |bs| - 1 && bs[1..][i].key == k { assert bs[i + 1].key == k; }
    }
  }

  /** A printable first line is consumed whole. */
  lemma FirstLineParses(b: Binding, rest: string, vars: map<string, string>)
    requires WellFormedKey(b.key) && Printable(b.value) && b.key !in vars
    ensures ParseFrom(PrintLine(b) + rest, vars) == ParseFrom(rest, vars[b.key := b.value])
  {
    hide ParseOption, NormalizeKey, Printable, PrintLine;
    var t := PrintLine(b) + rest;
    PrintLineIsPrinted(b, rest);
    PrintableParses(t, b);
    WellFormedKeyIsNormal(b.key);
  }

  /** An unprintable first line leaves its key bound to something else for good. */
  lemma FirstLineChanges(b: Binding, rest: string, vars: map<string, string>)
    requires WellFormedKey(b.key) && !Printable(b.value) && b.key !in vars
    ensures var parsed := ParseFrom(PrintLine(b) + rest, vars);
            b.key in parsed && parsed[b.key] != b.value
  {
    hide ParseOption, NormalizeKey, Printable, PrintLine, AfterOption;
    var t := PrintLine(b) + rest;
    PrintLineIsPrinted(b, rest);
    UnprintableChanges(t, b);
    WellFormedKeyIsNormal(b.key);
    var (n, read) := ParseOption(t);
    ParseKeepsBindings(AfterOption(t, n), Bind(vars, read), b.key);
  }

  lemma BindingFirst(bs: seq<Binding>, vars: map<string, string>)
    requires bs != [] && DistinctKeys(bs)
    ensures vars[bs[0].key := bs[0].value] + MapOf(bs[1..]) == vars + MapOf(bs)
    ensures AllPrintable(bs) <==> Printable(bs[0].value) && AllPrintable(bs[1..])
  {
    hide Printable;
    MapOfKeys(bs[1..], bs[0].key);
    assert forall i | 0 <= i < |bs| - 1 :: bs[1..][i] == bs[i + 1];
  }

  lemma {:induction false} PrintParses(bs: seq<Binding>, vars: map<string, string>)
    requires AllWellFormed(bs) && DistinctKeys(bs)
    requires forall i | 0 <= i < |bs| :: bs[i].key !in vars
    ensures ParseFrom(Print(bs), vars) == vars + MapOf(bs) <==> AllPrintable(bs)
  {
    hide PrintLine, Printable;
    if bs == [] {
      ParseNothing(vars);
    } else {
      var b, tail := bs[0], bs[1..];
      if Printable(b.value) {
        FirstLineParses(b, Print(tail), vars);
        PrintParses(tail, vars[b.key := b.value]);
        BindingFirst(bs, vars);
      } else {
        FirstLineChanges(b, Print(tail), vars);
        assert (vars + MapOf(bs))[b.key] == b.value;
      }
    }
  }

  /** Keys that come out of the parser are well formed, whatever the text was. */
  lemma {:induction false} ParsedKeysAreWellFormed(t: string, vars: map<string, string>)
    requires forall k | k in vars :: WellFormedKey(k)
    ensures forall k | k in ParseFrom(t, vars) :: WellFormedKey(k)
    decreases |t|
  {
    hide ParseOption, AfterOption, WellFormedKey, NormalizeKey;
    if t != "" {
      var (n, b) := ParseOption(t);
      if b.Some? && NormalizeKey(b.value.key) != "" { ParsedKeyIsWellFormed(t); }
      ParsedKeysAreWellFormed(AfterOption(t, n), Bind(vars, b));
    }
  }

  /** Parsing undoes printing, in whatever order the bindings are printed, exactly when
      every key is well formed and every value printable. */
  lemma ParseUndoesPrint(bs: seq<Binding>)
    requires DistinctKeys(bs)
    ensures Parse(Print(bs)) == MapOf(bs) <==> AllWellFormed(bs) && AllPrintable(bs)
  {
    hide Print, ParseFrom, WellFormedKey, Printable;
    if AllWellFormed(bs) {
      PrintParses(bs, map[]);
      assert map[] + MapOf(bs) == MapOf(bs);
    } else {
      ParsedKeysAreWellFormed(Print(bs), map[]);
      var i :| 0 <= i < |bs| && !WellFormedKey(bs[i].key);
      MapOfKeys(bs, bs[i].key);
    }
  }

  lemma ParsedKeyIsWellFormed(t: string)
    requires ParseOption(t).1.Some? && NormalizeKey(ParseOption(t).1.value.key) != ""
    ensures WellFormedKey(NormalizeKey(ParseOption(t).1.value.key))
  {
    hide ParseOption, NormalizeKey;
    ParsedName(t);
    NormalizedName(ParseOption(t).1.value.key);
  }

  /** Nothing that could be mistaken for the end of a key is left in it. */
  predicate NameLike(name: string) {
    && (name != "" ==> !SpaceTab(name[|name| - 1]))
    && forall j | 0 <= j < |name| :: !Endline(name[j]) && !Hash(name[j]) && !Equals(name[j])
  }

  lemma NormalizedName(name: string)
    requires NameLike(name) && NormalizeKey(name) != ""
    ensures WellFormedKey(NormalizeKey(name))
  {
  }

  lemma ParsedName(t: string)
    requires ParseOption(t).1.Some?
    ensures NameLike(ParseOption(t).1.value.key)
  {
    hide Find, TrimEnd, SkipList, Strip, StripComments, ScanLine;
    var l := ScanLine(t);
    var endName := TrimEnd(t, l.begin, l.eq, SpaceTab);
    var name := t[l.begin..endName];
    NameCharacters(t);
    forall j | 0 <= j < |name| ensures !Endline(name[j]) && !Hash(name[j]) && !Equals(name[j]) {
      assert name[j] == t[l.begin + j];
    }
    assert '#' !in name;
    StripNothing(name);
  }

  lemma NameCharacters(t: string)
    ensures var l := ScanLine(t);
            forall j | l.begin <= j < l.eq :: !Endline(t[j]) && !Hash(t[j]) && !Equals(t[j])
  {
  }

  /** A value of n blanks is read back as n + 1 blanks: rewriting such a file keeps adding one. */
  lemma BlankValueGrows(k: string, blanks: string)
    requires WellFormedKey(k) && forall j | 0 <= j < |blanks| :: blanks[j] == ' '
    ensures Parse(Print([Binding(k, blanks)])) == map[k := " " + blanks]
  {
    hide ParseOption, NormalizeKey, AfterOption, Strip, StripComments, Find, TrimEnd, PrintLine;
    var b := Binding(k, blanks);
    var t := PrintLine(b) + "";
    PrintLineIsPrinted(b, "");
    BlankBinding(t, b);
    WellFormedKeyIsNormal(k);
    assert Print([b]) == t by { assert [b][1..] == []; }
    var (n, read) := ParseOption(t);
    assert AfterOption(t, n) == "" by { AfterLast(t, n); }
    ParseNothing(Bind(map[], read));
  }

  lemma AfterLast(t: string, n: nat)
    requires n + 1 == |t|
    ensures AfterOption(t, n) == ""
  {
  }

  lemma BlankBinding(t: string, b: Binding)
    requires Printed(t, b) && WellFormedKey(b.key) && forall j | 0 <= j < |b.value| :: b.value[j] == ' '
    ensures ParseOption(t) == (ValueAt(b) + |b.value|, Some(Binding(b.key, " " + b.value)))
  {
    hide TrimEnd, Find, SkipList, Strip, StripComments, ParseOption;
    PrintedBinding(t, b);
    var p := ValueAt(b);
    forall j | p <= j < p + |b.value| ensures t[j] == ' ' {
      assert t[j] == t[p..p + |b.value|][j - p];
    }
    assert LineEnd(t, b) == p + |b.value|;
    assert ContentEnd(t, b) == p - 1;
    assert t[p - 1..p + |b.value|] == " " + b.value;
    StripNothing(" " + b.value);
  }
}
