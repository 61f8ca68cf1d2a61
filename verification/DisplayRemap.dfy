/** The display mode asked of Windows: the client's request, the user's options and the
    remapping table, and the predictor that tells beforehand whether the refresh rate will
    not be the client's. */
module DisplayRemap {

  import opened Wrappers

  datatype Resolution = Resolution(width: nat, height: nat)
  datatype Rational = Rational(numerator: nat, denominator: nat)

  datatype ResolutionOption = NoResolution | AutomaticResolution | ManualResolution
  datatype RefreshOption = NoRefresh | AutomaticRefresh | ManualRefresh | PreferHighest

  /** One row of a remapping table, as the user typed it. */
  datatype Entry = Entry(requestedResolution: string, requestedFps: string, finalResolution: string, finalRefreshRate: string)

  /** What reading a text gives; an empty text is read as no value. */
  datatype Reading<+T> = Malformed | Read(value: Option<T>)

  /** The text readers and the comparison of rates, which this module leaves open. */
  datatype Parsers = Parsers(
    resolution: string -> Reading<Resolution>,
    rate: (string, bool) -> Reading<Rational>,
    sameRate: (Rational, Rational) -> bool)

  datatype Video = Video(
    prepare: bool,
    resolutionOption: ResolutionOption,
    refreshOption: RefreshOption,
    manualResolution: string,
    manualRefreshRate: string,
    mixed: seq<Entry>,
    resolutionOnly: seq<Entry>,
    refreshRateOnly: seq<Entry>)

  datatype Session = Session(
    resolutionOverride: Option<(int, int)>,
    clientModeOverride: bool,
    width: int,
    height: int,
    fps: int,
    clientMillihz: nat,
    framegenMillihz: Option<nat>,
    framegenRate: Option<int>)

  datatype Mode = Mode(resolution: Option<Resolution>, refreshRate: Option<Rational>)

  /** Small numbers are hertz, large ones already millihertz. */
  function NormalizeMillihz(value: int): nat {
    if value <= 0 then 0 else if value >= 1000 then value else value * 1000
  }

  function EffectiveMillihz(s: Session): nat {
    if s.framegenMillihz.Some? && s.framegenMillihz.value > 0 then s.framegenMillihz.value
    else if s.clientMillihz > 0 then s.clientMillihz
    else if s.framegenRate.Some? && s.framegenRate.value > 0 then NormalizeMillihz(s.framegenRate.value)
    else NormalizeMillihz(s.fps)
  }

  /** The refresh rate the client asks for. */
  function ClientRate(s: Session): Rational { Rational(EffectiveMillihz(s), 1000) }

  //////////////////// Options ////////////////////

  function Size(width: int, height: int): Reading<Resolution> {
    if width >= 0 && height >= 0 then Read(Some(Resolution(width, height))) else Malformed
  }

  /** A manual value must be given. */
  function Required<T>(r: Reading<T>): Reading<T> { if r == Read(None) then Malformed else r }

  function ResolutionFor(v: Video, s: Session, p: Parsers): Reading<Resolution> {
    if s.resolutionOverride.Some? then
      var (width, height) := s.resolutionOverride.value;
      if width > 0 && height > 0 then Read(Some(Resolution(width, height))) else Malformed
    else if s.clientModeOverride then Size(s.width, s.height)
    else
      match v.resolutionOption
      case AutomaticResolution => Size(s.width, s.height)
      case ManualResolution => Required(p.resolution(v.manualResolution))
      case NoResolution => Read(None)
  }

  function RequestedRate(s: Session): Reading<Rational> {
    if EffectiveMillihz(s) > 0 then Read(Some(ClientRate(s))) else Malformed
  }

  function RefreshRateFor(v: Video, s: Session, p: Parsers): Reading<Rational> {
    if s.clientModeOverride then RequestedRate(s)
    else
      match v.refreshOption
      case AutomaticRefresh => RequestedRate(s)
      case ManualRefresh => Required(p.rate(v.manualRefreshRate, true))
      case PreferHighest => Read(Some(Rational(10000, 1)))
      case NoRefresh => Read(None)
  }

  //////////////////// The remapping table ////////////////////

  datatype RemapType = Mixed | ResolutionOnly | RefreshRateOnly

  function DetermineRemapType(v: Video): Option<RemapType> {
    if v.resolutionOption.AutomaticResolution? then
      if v.refreshOption.AutomaticRefresh? then Some(Mixed) else Some(ResolutionOnly)
    else if v.refreshOption.AutomaticRefresh? then Some(RefreshRateOnly)
    else None
  }

  predicate MapsResolution(t: RemapType) { t != RefreshRateOnly }

  predicate MapsRate(t: RemapType) { t != ResolutionOnly }

  function TableFor(v: Video, t: RemapType): seq<Entry> {
    match t
    case Mixed => v.mixed
    case ResolutionOnly => v.resolutionOnly
    case RefreshRateOnly => v.refreshRateOnly
  }

  datatype Rule = Rule(
    requestedResolution: Option<Resolution>,
    requestedFps: Option<Rational>,
    finalResolution: Option<Resolution>,
    finalRefreshRate: Option<Rational>)

  /** Reads the columns that matter for the type; the others count as empty. */
  function ParseEntry(e: Entry, t: RemapType, p: Parsers): Option<Rule> {
    var rr := if MapsResolution(t) then p.resolution(e.requestedResolution) else Read(None);
    var fr := if MapsResolution(t) then p.resolution(e.finalResolution) else Read(None);
    var rf := if MapsRate(t) then p.rate(e.requestedFps, false) else Read(None);
    var ff := if MapsRate(t) then p.rate(e.finalRefreshRate, true) else Read(None);
    if rr.Malformed? || fr.Malformed? || rf.Malformed? || ff.Malformed? then None
    else Some(Rule(rr.value, rf.value, fr.value, ff.value))
  }

  predicate RateMatches(rule: Rule, rate: Option<Rational>, p: Parsers) {
    rule.requestedFps.Some? ==> rate.Some? && p.sameRate(rule.requestedFps.value, rate.value)
  }

  predicate Matches(rule: Rule, mode: Mode, p: Parsers) {
    && (rule.requestedResolution.Some? ==> rule.requestedResolution == mode.resolution)
    && RateMatches(rule, mode.refreshRate, p)
  }

  predicate HasFinal(rule: Rule) { rule.finalResolution.Some? || rule.finalRefreshRate.Some? }

  function ApplyRule(rule: Rule, mode: Mode): Mode {
    Mode(if rule.finalResolution.Some? then rule.finalResolution else mode.resolution,
         if rule.finalRefreshRate.Some? then rule.finalRefreshRate else mode.refreshRate)
  }

  /** What a table does to a mode: refuse it, leave it, or apply one rule. */
  datatype Verdict = Refused | NoRule | Applies(rule: Rule)

  /** The first rule that matches, unless an unusable row comes first. */
  function Lookup(table: seq<Entry>, t: RemapType, mode: Mode, p: Parsers): Verdict {
    if table == [] then NoRule
    else
      var rule := ParseEntry(table[0], t, p);
      if rule.None? || !HasFinal(rule.value) then Refused
      else if Matches(rule.value, mode, p) then Applies(rule.value)
      else Lookup(table[1..], t, mode, p)
  }

  /** The verdict on a session's mode; no table is consulted under a client mode override. */
  function RemapVerdict(v: Video, s: Session, mode: Mode, p: Parsers): Verdict {
    if s.clientModeOverride || DetermineRemapType(v).None? then NoRule
    else
      var t := DetermineRemapType(v).value;
      Lookup(TableFor(v, t), t, mode, p)
  }

  /** The loop over the table; `mode` changes only when a rule applies. */
  method RemapDisplayModeIfNeeded(v: Video, s: Session, before: Mode, p: Parsers) returns (ok: bool, mode: Mode)
    ensures var verdict := RemapVerdict(v, s, before, p);
            && (ok <==> !verdict.Refused?)
            && mode == if verdict.Applies? then ApplyRule(verdict.rule, before) else before
  {
    mode := before;
    if s.clientModeOverride {
      return true, mode;
    }
    var remapType := DetermineRemapType(v);
    if remapType.None? {
      return true, mode;
    }
    var table := TableFor(v, remapType.value);
    if table == [] {
      return true, mode;
    }
    assert table[0..] == table;
    for i := 0 to |table|
      invariant mode == before
      invariant RemapVerdict(v, s, before, p) == Lookup(table[i..], remapType.value, before, p)
    {
      assert table[i..][0] == table[i] && table[i..][1..] == table[i + 1..];
      var rule := ParseEntry(table[i], remapType.value, p);
      if rule.None? {
        return false, mode;
      }
      if rule.value.finalResolution.None? && rule.value.finalRefreshRate.None? {
        return false, mode;
      }
      if rule.value.requestedResolution.Some? && rule.value.requestedResolution != mode.resolution {
        continue;
      }
      if rule.value.requestedFps.Some? && (mode.refreshRate.None? || !p.sameRate(rule.value.requestedFps.value, mode.refreshRate.value)) {
        continue;
      }
      if rule.value.finalResolution.Some? {
        mode := mode.(resolution := rule.value.finalResolution);
      }
      if rule.value.finalRefreshRate.Some? {
        mode := mode.(refreshRate := rule.value.finalRefreshRate);
      }
      return true, mode;
    }
    return true, mode;
  }

  //////////////////// The whole request ////////////////////

  datatype Outcome = Failed | Disabled | Configured(mode: Mode)

  /** The mode before remapping. */
  function BaseMode(v: Video, s: Session, p: Parsers): Option<Mode> {
    var resolution, rate := ResolutionFor(v, s, p), RefreshRateFor(v, s, p);
    if resolution.Malformed? || rate.Malformed? then None else Some(Mode(resolution.value, rate.value))
  }

  function Configuration(v: Video, s: Session, p: Parsers): Outcome {
    if !v.prepare then Disabled
    else if BaseMode(v, s, p).None? then Failed
    else
      var mode := BaseMode(v, s, p).value;
      match RemapVerdict(v, s, mode, p)
      case Refused => Failed
      case NoRule => Configured(mode)
      case Applies(rule) => Configured(ApplyRule(rule, mode))
  }

  method ParseConfiguration(v: Video, s: Session, p: Parsers) returns (r: Outcome)
    ensures r == Configuration(v, s, p)
  {
    if !v.prepare {
      return Disabled;
    }
    var resolution := ResolutionFor(v, s, p);
    if resolution.Malformed? {
      return Failed;
    }
    var rate := RefreshRateFor(v, s, p);
    if rate.Malformed? {
      return Failed;
    }
    var ok, mode := RemapDisplayModeIfNeeded(v, s, Mode(resolution.value, rate.value), p);
    if !ok {
      return Failed;
    }
    return Configured(mode);
  }

  /** A table row applied that sets the refresh rate. */
  predicate RateRemapped(v: Video, s: Session, p: Parsers) {
    && BaseMode(v, s, p).Some?
    && var verdict := RemapVerdict(v, s, BaseMode(v, s, p).value, p);
       verdict.Applies? && verdict.rule.finalRefreshRate.Some?
  }

  //////////////////// The predictor ////////////////////

  /** Row `i` makes the predictor say yes: it lies before the first unreadable row, sets a
      rate, and asks for the client's rate or any. */
  predicate Suggests(table: seq<Entry>, t: RemapType, rate: Rational, p: Parsers, i: int) {
    0 <= i < |table| && Readable(table[..i], t, p) && SetsRate(table[i], t, rate, p)
  }

  ghost predicate MayRemap(table: seq<Entry>, t: RemapType, rate: Rational, p: Parsers) {
    exists i :: Suggests(table, t, rate, p, i)
  }

  predicate Readable(table: seq<Entry>, t: RemapType, p: Parsers) {
    forall e | e in table :: ParseEntry(e, t, p).Some?
  }

  predicate SetsRate(e: Entry, t: RemapType, rate: Rational, p: Parsers) {
    var rule := ParseEntry(e, t, p);
    rule.Some? && rule.value.finalRefreshRate.Some? && RateMatches(rule.value, Some(rate), p)
  }

  ghost predicate Predicted(v: Video, s: Session, p: Parsers) {
    || v.refreshOption.ManualRefresh?
    || (&& !s.clientModeOverride && DetermineRemapType(v).Some? && MapsRate(DetermineRemapType(v).value)
        && EffectiveMillihz(s) > 0
        && MayRemap(TableFor(v, DetermineRemapType(v).value), DetermineRemapType(v).value, ClientRate(s), p))
  }

  method RefreshRateOverrideActive(v: Video, s: Session, p: Parsers) returns (active: bool)
    ensures active <==> Predicted(v, s, p)
  {
    if v.refreshOption.ManualRefresh? {
      return true;
    }
    if s.clientModeOverride {
      return false;
    }
    var remapType := DetermineRemapType(v);
    if remapType.None? || !MapsRate(remapType.value) {
      return false;
    }
    var t := remapType.value;
    var table := TableFor(v, t);
    if table == [] {
      return false;
    }
    if EffectiveMillihz(s) == 0 {
      return false;
    }
    var requested := ClientRate(s);
    for i := 0 to |table|
      invariant Readable(table[..i], t, p)
      invariant forall j | 0 <= j < i :: !SetsRate(table[j], t, requested, p)
    {
      var rule := ParseEntry(table[i], t, p);
      if rule.None? {
        assert forall j | i < j < |table| :: table[..j][i] == table[i];
        return false;
      }
      assert table[..i + 1] == table[..i] + [table[i]];
      if rule.value.finalRefreshRate.None? {
        continue;
      }
      if rule.value.requestedFps.Some? && !p.sameRate(rule.value.requestedFps.value, requested) {
        continue;
      }
      assert Suggests(table, t, requested, p, i);
      return true;
    }
    return false;
  }

  //////////////////// What is guaranteed ////////////////////

  /** An applied rule that sets the rate lies where the predictor looks. */
  lemma {:induction false} AppliedRuleIsSeen(table: seq<Entry>, t: RemapType, mode: Mode, p: Parsers)
    requires var verdict := Lookup(table, t, mode, p); verdict.Applies? && verdict.rule.finalRefreshRate.Some?
    requires mode.refreshRate.Some?
    ensures MayRemap(table, t, mode.refreshRate.value, p)
  {
    var rate := mode.refreshRate.value;
    if Matches(ParseEntry(table[0], t, p).value, mode, p) {
      assert Suggests(table, t, rate, p, 0);
    } else {
      AppliedRuleIsSeen(table[1..], t, mode, p);
      var i :| Suggests(table[1..], t, rate, p, i);
      assert table[..i + 1] == [table[0]] + table[1..][..i];
      assert Suggests(table, t, rate, p, i + 1);
    }
  }

  /** No remapped refresh rate goes unpredicted. */
  lemma RemappedRateIsPredicted(v: Video, s: Session, p: Parsers)
    requires RateRemapped(v, s, p)
    ensures Predicted(v, s, p)
  {
    var t, mode := DetermineRemapType(v).value, BaseMode(v, s, p).value;
    if MapsRate(t) {
      AppliedRuleIsSeen(TableFor(v, t), t, mode, p);
    } else {
      ResolutionRuleSetsNoRate(TableFor(v, t), mode, p);
    }
  }

  lemma {:induction false} ResolutionRuleSetsNoRate(table: seq<Entry>, mode: Mode, p: Parsers)
    ensures var verdict := Lookup(table, ResolutionOnly, mode, p); verdict.Applies? ==> verdict.rule.finalRefreshRate.None?
  {
    if table != [] { ResolutionRuleSetsNoRate(table[1..], mode, p); }
  }

  /** Without a prediction the refresh rate is exactly what the option says: the client's,
      the highest or none. */
  lemma UnpredictedRate(v: Video, s: Session, p: Parsers)
    requires Configuration(v, s, p).Configured? && !Predicted(v, s, p)
    ensures Configuration(v, s, p).mode.refreshRate ==
            if s.clientModeOverride || v.refreshOption.AutomaticRefresh? then Some(ClientRate(s))
            else if v.refreshOption.PreferHighest? then Some(Rational(10000, 1))
            else None
  {
    if RateRemapped(v, s, p) { RemappedRateIsPredicted(v, s, p); }
  }

  /** Row `e` can be read and asks for the resolution and the rate of `mode`. */
  predicate Fits(e: Entry, t: RemapType, mode: Mode, p: Parsers) {
    var rule := ParseEntry(e, t, p);
    rule.Some? && Matches(rule.value, mode, p)
  }

  predicate FitsFirst(table: seq<Entry>, t: RemapType, mode: Mode, p: Parsers, i: int) {
    0 <= i < |table| && Fits(table[i], t, mode, p) && forall j | 0 <= j < i :: !Fits(table[j], t, mode, p)
  }

  /** If no unusable row comes before it, the first fitting row is applied, and no other. */
  lemma {:induction false} FirstFitApplies(table: seq<Entry>, t: RemapType, mode: Mode, p: Parsers)
    requires !Lookup(table, t, mode, p).Refused?
    ensures var verdict := Lookup(table, t, mode, p);
            if verdict.NoRule? then forall i | 0 <= i < |table| :: ParseEntry(table[i], t, p).Some? && !Fits(table[i], t, mode, p)
            else exists i :: FitsFirst(table, t, mode, p, i) && Readable(table[..i], t, p) && ParseEntry(table[i], t, p) == Some(verdict.rule)
  {
    hide ParseEntry, Matches;
    if table != [] {
      var first := ParseEntry(table[0], t, p).value;
      if Matches(first, mode, p) {
        assert FitsFirst(table, t, mode, p, 0) && Readable(table[..0], t, p);
      } else {
        var rest := table[1..];
        FirstFitApplies(rest, t, mode, p);
        assert forall i | 0 < i < |table| :: table[i] == rest[i - 1];
        if Lookup(table, t, mode, p).Applies? {
          var i :| FitsFirst(rest, t, mode, p, i) && Readable(rest[..i], t, p) && ParseEntry(rest[i], t, p) == Some(Lookup(rest, t, mode, p).rule);
          assert table[..i + 1] == [table[0]] + rest[..i];
          assert FitsFirst(table, t, mode, p, i + 1);
        }
      }
    }
  }

  /** The rate is remapped exactly when the first row that fits the client's resolution and
      rate sets one. */
  lemma RateRemappedExactly(v: Video, s: Session, p: Parsers)
    requires Configuration(v, s, p).Configured? && !s.clientModeOverride && DetermineRemapType(v).Some?
    ensures var t := DetermineRemapType(v).value;
            var table, mode := TableFor(v, t), BaseMode(v, s, p).value;
            RateRemapped(v, s, p) <==>
            exists i :: FitsFirst(table, t, mode, p, i) && ParseEntry(table[i], t, p).value.finalRefreshRate.Some?
  {
    var t := DetermineRemapType(v).value;
    FirstFitApplies(TableFor(v, t), t, BaseMode(v, s, p).value, p);
  }

  /** Row `i` sets only a resolution, and fits. */
  predicate FitsWithoutRate(table: seq<Entry>, t: RemapType, mode: Mode, p: Parsers, i: int) {
    0 <= i < |table| && Fits(table[i], t, mode, p) && ParseEntry(table[i], t, p).value.finalRefreshRate.None?
  }

  /** The prediction overshoots exactly when some row suggests a rate, and every row that
      does is meant for another resolution or stands behind a fitting row that sets none. */
  lemma OvershootsExactly(v: Video, s: Session, p: Parsers)
    requires Configuration(v, s, p).Configured? && !s.clientModeOverride && v.refreshOption.AutomaticRefresh?
    ensures var t := DetermineRemapType(v).value;
            var table, mode, rate := TableFor(v, t), BaseMode(v, s, p).value, ClientRate(s);
            Predicted(v, s, p) && !RateRemapped(v, s, p) <==>
            && (exists i :: Suggests(table, t, rate, p, i))
            && forall i | Suggests(table, t, rate, p, i) ::
                 !Fits(table[i], t, mode, p) || exists j :: j < i && FitsWithoutRate(table, t, mode, p, j)
  {
    hide Lookup;
    var t := DetermineRemapType(v).value;
    var table, mode, rate := TableFor(v, t), BaseMode(v, s, p).value, ClientRate(s);
    RateRemappedExactly(v, s, p);
    FirstFitIsLooked(v, s, p);
    if Predicted(v, s, p) && !RateRemapped(v, s, p) {
      forall i | Suggests(table, t, rate, p, i) && Fits(table[i], t, mode, p)
        ensures exists j :: j < i && FitsWithoutRate(table, t, mode, p, j)
      {
        var m := FirstFit(table, t, mode, p, i);
        assert FitsWithoutRate(table, t, mode, p, m);
      }
    }
  }

  lemma {:induction false} FirstFit(table: seq<Entry>, t: RemapType, mode: Mode, p: Parsers, i: int) returns (m: int)
    requires 0 <= i < |table| && Fits(table[i], t, mode, p)
    ensures m <= i && FitsFirst(table, t, mode, p, m)
    decreases i
  {
    if j :| 0 <= j < i && Fits(table[j], t, mode, p) {
      m := FirstFit(table, t, mode, p, j);
    } else {
      m := i;
    }
  }

  /** The rate-setting first fit, if there is one, is among the rows the predictor looks at. */
  lemma FirstFitIsLooked(v: Video, s: Session, p: Parsers)
    requires Configuration(v, s, p).Configured? && !s.clientModeOverride && v.refreshOption.AutomaticRefresh?
    ensures var t := DetermineRemapType(v).value;
            var table, mode := TableFor(v, t), BaseMode(v, s, p).value;
            forall i | FitsFirst(table, t, mode, p, i) && ParseEntry(table[i], t, p).value.finalRefreshRate.Some? ::
              Suggests(table, t, ClientRate(s), p, i) && forall j | j < i :: !FitsWithoutRate(table, t, mode, p, j)
  {
    var t := DetermineRemapType(v).value;
    FirstFitApplies(TableFor(v, t), t, BaseMode(v, s, p).value, p);
  }

  /** When only the refresh rate is automatic, the prediction is exact. */
  lemma RateOnlyPredictionIsExact(v: Video, s: Session, p: Parsers)
    requires DetermineRemapType(v) == Some(RefreshRateOnly)
    requires Configuration(v, s, p).Configured?
    ensures Predicted(v, s, p) <==> RateRemapped(v, s, p)
  {
    if RateRemapped(v, s, p) { RemappedRateIsPredicted(v, s, p); }
    if Predicted(v, s, p) { SeenRuleApplies(v.refreshRateOnly, BaseMode(v, s, p).value, p); }
  }

  lemma {:induction false} SeenRuleApplies(table: seq<Entry>, mode: Mode, p: Parsers)
    requires mode.refreshRate.Some? && MayRemap(table, RefreshRateOnly, mode.refreshRate.value, p)
    requires !Lookup(table, RefreshRateOnly, mode, p).Refused?
    ensures var verdict := Lookup(table, RefreshRateOnly, mode, p); verdict.Applies? && verdict.rule.finalRefreshRate.Some?
  {
    var t, rate := RefreshRateOnly, mode.refreshRate.value;
    var i :| Suggests(table, t, rate, p, i);
    var first := ParseEntry(table[0], t, p).value;
    if !Matches(first, mode, p) {
      assert i > 0;
      var rest := table[1..];
      assert rest[i - 1] == table[i];
      assert forall e | e in rest[..i - 1] :: e in table[..i];
      assert Suggests(rest, t, rate, p, i - 1);
      SeenRuleApplies(rest, mode, p);
    }
  }

  /** When both are automatic it may overshoot, as it does not look at the resolution: here
      it predicts a row that is meant for another resolution. */
  lemma MixedPredictionMayOvershoot() returns (v: Video, s: Session, p: Parsers)
    ensures DetermineRemapType(v) == Some(Mixed) && Configuration(v, s, p).Configured?
    ensures Predicted(v, s, p) && !RateRemapped(v, s, p)
  {
    var row := Entry("3840x2160", "", "", "120");
    v := Video(true, AutomaticResolution, AutomaticRefresh, "", "", [row], [], []);
    s := Session(None, false, 1920, 1080, 60, 0, None, None);
    p := Parsers(
      text => if text == "" then Read(None) else Read(Some(Resolution(3840, 2160))),
      (text, _) => if text == "" then Read(None) else Read(Some(Rational(120, 1))),
      (a, b) => a == b);
    var mode := Mode(Some(Resolution(1920, 1080)), Some(Rational(60000, 1000)));
    assert BaseMode(v, s, p) == Some(mode);
    assert ParseEntry(row, Mixed, p) == Some(Rule(Some(Resolution(3840, 2160)), None, None, Some(Rational(120, 1))));
    assert v.mixed[0] == row && v.mixed[1..] == [] && Lookup(v.mixed, Mixed, mode, p) == NoRule;
    assert Suggests(v.mixed, Mixed, ClientRate(s), p, 0);
  }

  /** Rows behind the deciding one never matter. */
  lemma {:induction false} LaterRowsDoNotMatter(table: seq<Entry>, more: seq<Entry>, t: RemapType, mode: Mode, p: Parsers)
    ensures Lookup(table + more, t, mode, p) ==
            if Lookup(table, t, mode, p).NoRule? then Lookup(more, t, mode, p) else Lookup(table, t, mode, p)
  {
    if table == [] {
      assert table + more == more;
    } else {
      assert (table + more)[1..] == table[1..] + more;
      LaterRowsDoNotMatter(table[1..], more, t, mode, p);
    }
  }

  /** Under a client mode override the tables have no influence at all, and the client's
      rate is used as it is. */
  lemma OverrideIgnoresTables(v: Video, s: Session, p: Parsers, w: Video)
    requires s.clientModeOverride && w == v.(mixed := w.mixed, resolutionOnly := w.resolutionOnly, refreshRateOnly := w.refreshRateOnly)
    ensures Configuration(v, s, p) == Configuration(w, s, p)
    ensures Configuration(v, s, p).Configured? ==> Configuration(v, s, p).mode.refreshRate == Some(ClientRate(s))
  {
  }

  /** A prediction for a rate that stays the client's: a manual rate is predicted even where
      a client mode override keeps it from being used. */
  lemma OverridePredictedForManualRate(v: Video, s: Session, p: Parsers)
    requires s.clientModeOverride && Configuration(v, s, p).Configured?
    ensures Predicted(v, s, p) <==> v.refreshOption.ManualRefresh?
    ensures Configuration(v, s, p).mode.refreshRate == Some(ClientRate(s)) && !RateRemapped(v, s, p)
  {
  }

  //////////////////// Values ////////////////////

  /** The refresh rate that counts as the client's, in millihertz: the frame generation's exact
      rate, the client's exact rate, the frame generation's rate, the stream's rate, whichever
      is given first; small whole numbers are hertz. */
  lemma ClientRateMeans(s: Session)
    ensures var millihz := EffectiveMillihz(s);
            && (s.framegenMillihz.Some? && s.framegenMillihz.value > 0 ==> millihz == s.framegenMillihz.value)
            && (s.framegenMillihz.None? || s.framegenMillihz.value == 0 ==>
                  && (s.clientMillihz > 0 ==> millihz == s.clientMillihz)
                  && (s.clientMillihz == 0 ==>
                        var rate := if s.framegenRate.Some? && s.framegenRate.value > 0 then s.framegenRate.value else s.fps;
                        && (rate <= 0 ==> millihz == 0)
                        && (0 < rate < 1000 ==> millihz == rate * 1000)
                        && (rate >= 1000 ==> millihz == rate)))
  {
  }

  /** The configured resolution, where no table row sets one: the launch override if there is
      one, the client's under a client mode override, else as the option says. */
  lemma ConfiguredResolution(v: Video, s: Session, p: Parsers)
    requires Configuration(v, s, p).Configured?
    requires BaseMode(v, s, p).Some? ==>
               var verdict := RemapVerdict(v, s, BaseMode(v, s, p).value, p);
               verdict.Applies? ==> verdict.rule.finalResolution.None?
    ensures var resolution := Configuration(v, s, p).mode.resolution;
            if s.resolutionOverride.Some? then
              var (width, height) := s.resolutionOverride.value;
              width > 0 && height > 0 && resolution == Some(Resolution(width, height))
            else if s.clientModeOverride || v.resolutionOption.AutomaticResolution? then
              s.width >= 0 && s.height >= 0 && resolution == Some(Resolution(s.width, s.height))
            else if v.resolutionOption.ManualResolution? then
              resolution.Some? && p.resolution(v.manualResolution) == Read(resolution)
            else resolution == None
  {
  }

  /** The configured refresh rate, where no table row sets one and no client mode override is in force. */
  lemma ConfiguredRate(v: Video, s: Session, p: Parsers)
    requires Configuration(v, s, p).Configured? && !RateRemapped(v, s, p) && !s.clientModeOverride
    ensures var rate := Configuration(v, s, p).mode.refreshRate;
            match v.refreshOption
            case AutomaticRefresh => EffectiveMillihz(s) > 0 && rate == Some(Rational(EffectiveMillihz(s), 1000))
            case ManualRefresh => rate.Some? && p.rate(v.manualRefreshRate, true) == Read(rate)
            case PreferHighest => rate == Some(Rational(10000, 1))
            case NoRefresh => rate == None
  {
  }

  /** When no configuration comes about: a size that is negative (for the launch override, not
      positive), no client rate, a manual value that is missing or malformed, or a refusing table. */
  lemma FailsExactly(v: Video, s: Session, p: Parsers)
    requires v.prepare
    ensures Configuration(v, s, p).Failed? <==>
            || (s.resolutionOverride.Some? && (s.resolutionOverride.value.0 <= 0 || s.resolutionOverride.value.1 <= 0))
            || (s.resolutionOverride.None? && (s.clientModeOverride || v.resolutionOption.AutomaticResolution?) && (s.width < 0 || s.height < 0))
            || (s.resolutionOverride.None? && !s.clientModeOverride && v.resolutionOption.ManualResolution?
                && (p.resolution(v.manualResolution).Malformed? || p.resolution(v.manualResolution).value.None?))
            || ((s.clientModeOverride || v.refreshOption.AutomaticRefresh?) && EffectiveMillihz(s) == 0)
            || (!s.clientModeOverride && v.refreshOption.ManualRefresh?
                && (p.rate(v.manualRefreshRate, true).Malformed? || p.rate(v.manualRefreshRate, true).value.None?))
            || (BaseMode(v, s, p).Some? && RemapVerdict(v, s, BaseMode(v, s, p).value, p).Refused?)
  {
  }

  /** Which table is looked up: the one for what is automatic; the other two have no influence,
      nor has any where nothing is. */
  lemma OneTableCounts(v: Video, s: Session, p: Parsers, other: seq<Entry>)
    ensures v.resolutionOption.AutomaticResolution? && v.refreshOption.AutomaticRefresh? ==>
              Configuration(v.(resolutionOnly := other, refreshRateOnly := other), s, p) == Configuration(v, s, p)
    ensures v.resolutionOption.AutomaticResolution? && !v.refreshOption.AutomaticRefresh? ==>
              Configuration(v.(mixed := other, refreshRateOnly := other), s, p) == Configuration(v, s, p)
    ensures !v.resolutionOption.AutomaticResolution? && v.refreshOption.AutomaticRefresh? ==>
              Configuration(v.(mixed := other, resolutionOnly := other), s, p) == Configuration(v, s, p)
    ensures !v.resolutionOption.AutomaticResolution? && !v.refreshOption.AutomaticRefresh? ==>
              Configuration(v.(mixed := other, resolutionOnly := other, refreshRateOnly := other), s, p) == Configuration(v, s, p)
  {
  }

  /** What a row asks for and sets: only the columns of what is automatic are read, each with
      its own reader, and a requested rate may not have decimals. */
  lemma RowMeans(e: Entry, p: Parsers)
    requires p.resolution(e.requestedResolution).Read? && p.resolution(e.finalResolution).Read?
    requires p.rate(e.requestedFps, false).Read? && p.rate(e.finalRefreshRate, true).Read?
    ensures var rr, fr := p.resolution(e.requestedResolution).value, p.resolution(e.finalResolution).value;
            var rf, ff := p.rate(e.requestedFps, false).value, p.rate(e.finalRefreshRate, true).value;
            && ParseEntry(e, Mixed, p) == Some(Rule(rr, rf, fr, ff))
            && ParseEntry(e, ResolutionOnly, p) == Some(Rule(rr, None, fr, None))
            && ParseEntry(e, RefreshRateOnly, p) == Some(Rule(None, rf, None, ff))
  {
  }

  /** A single row applies exactly if what it asks for is there; it replaces what it sets and nothing else. */
  lemma OneRowApplies(e: Entry, mode: Mode, p: Parsers)
    requires p.resolution(e.requestedResolution).Read? && p.resolution(e.finalResolution).Read?
    requires p.rate(e.requestedFps, false).Read? && p.rate(e.finalRefreshRate, true).Read?
    ensures var rr, fr := p.resolution(e.requestedResolution).value, p.resolution(e.finalResolution).value;
            var rf, ff := p.rate(e.requestedFps, false).value, p.rate(e.finalRefreshRate, true).value;
            var verdict := Lookup([e], Mixed, mode, p);
            && (verdict.Refused? <==> fr == None && ff == None)
            && (verdict.Applies? <==>
                && (fr.Some? || ff.Some?) && (rr.None? || rr == mode.resolution)
                && (rf.None? || (mode.refreshRate.Some? && p.sameRate(rf.value, mode.refreshRate.value))))
            && (verdict.Applies? ==>
                ApplyRule(verdict.rule, mode) ==
                Mode(if fr.Some? then fr else mode.resolution, if ff.Some? then ff else mode.refreshRate))
  {
    RowMeans(e, p);
    assert [e][1..] == [] && Lookup([], Mixed, mode, p) == NoRule;
  }

  /** The predictor goes by readable rows only: behind a row that cannot be read it sees nothing. */
  lemma PredictionStopsAtUnreadableRow(v: Video, s: Session, p: Parsers)
    requires Predicted(v, s, p) && !v.refreshOption.ManualRefresh?
    ensures v.refreshOption.AutomaticRefresh? && !s.clientModeOverride
    ensures var t := if v.resolutionOption.AutomaticResolution? then Mixed else RefreshRateOnly;
            var table := if v.resolutionOption.AutomaticResolution? then v.mixed else v.refreshRateOnly;
            exists i :: 0 <= i < |table| && ReadableUpTo(table, t, p, i)
  {
    var t := DetermineRemapType(v).value;
    var table := TableFor(v, t);
    var i :| Suggests(table, t, ClientRate(s), p, i);
    assert forall j | 0 <= j < i :: table[..i][j] == table[j] && table[j] in table[..i];
    assert ReadableUpTo(table, t, p, i);
  }

  /** Row `i` sets a rate, and all rows up to it can be read. */
  predicate ReadableUpTo(table: seq<Entry>, t: RemapType, p: Parsers, i: int)
    requires 0 <= i < |table|
  {
    && (forall j | 0 <= j <= i :: ParseEntry(table[j], t, p).Some?)
    && ParseEntry(table[i], t, p).value.finalRefreshRate.Some?
  }
}
