/** The timestamp anomaly analyzer (core/forensics/timestamp_analyzer.py):
    per-file rule checks with an additive, capped confidence, a batch pass
    over a directory listing, the grouping of files by modification time
    truncated to the second, and the ordering of the report's top list.

    Timestamps are whole microseconds (`FileEntries.Timestamp`); the clock
    reading `now` is a parameter. Confidence is kept in tenths, so the
    weights 0.4, 0.3, 0.2 and 0.5 are 4, 3, 2 and 5 and the cap 1.0 is 10. */
module Timestamps {
  import opened Wrappers
  import opened Text
  import opened FileEntries
  import opened Sorting

  const SECOND: int := 1000000
  /** `timedelta(days=1)`: the tolerance for timestamps ahead of the clock. */
  const DAY: int := 86400 * SECOND
  /** The confidence cap, 1.0 in tenths. */
  const MAX_CONFIDENCE: nat := 10

  /** `ts.microsecond`. */
  function Microsecond(t: Timestamp): int {
    t % SECOND
  }

  /** `ts.replace(microsecond=0)`: the start of the second holding `t`. */
  function TruncSecond(t: Timestamp): (r: Timestamp)
    ensures r <= t < r + SECOND && Microsecond(r) == 0
  {
    t - t % SECOND
  }

  /** Two instants in the same second truncate to the same value. */
  lemma TruncSecondSame(s: Timestamp, t: Timestamp)
    ensures TruncSecond(s) == TruncSecond(t) <==> s / SECOND == t / SECOND
  {
  }

  datatype Severity = Low | Medium | High

  datatype AnomalyKind = MissingTimestamps | IdenticalTimestamps | IllogicalOrder | ZeroPrecision | FutureTimestamp

  /** The `type` string of an anomaly. */
  function TypeName(k: AnomalyKind): string {
    match k
    case MissingTimestamps => "missing_timestamps"
    case IdenticalTimestamps => "identical_timestamps"
    case IllogicalOrder => "illogical_order"
    case ZeroPrecision => "zero_precision"
    case FutureTimestamp => "future_timestamp"
  }

  datatype Anomaly = Anomaly(kind: AnomalyKind, description: string, severity: Severity)

  /** The `details` of a complete analysis. The source renders the three
      timestamps with `isoformat()`; here they are kept as instants. */
  datatype Details = Details(
    created: Option<Timestamp>,
    modified: Option<Timestamp>,
    accessed: Option<Timestamp>,
    mftEntry: Option<int>)

  /** The dict `analyze_timestamps` returns; `details` is None where the
      source leaves it `{}`. */
  datatype Analysis = Analysis(
    filePath: string,
    anomalies: seq<Anomaly>,
    confidence: nat,
    details: Option<Details>)

  // The per-file checks

  /** The timestamps of an entry with their names, in the order created,
      modified, accessed, keeping only those present. */
  function NamedTimes(e: FileEntry): (r: seq<(string, Timestamp)>)
    ensures |r| <= 3
  {
    (if e.createdTime.Some? then [("created", e.createdTime.value)] else [])
    + (if e.modifiedTime.Some? then [("modified", e.modifiedTime.value)] else [])
    + (if e.accessedTime.Some? then [("accessed", e.accessedTime.value)] else [])
  }

  /** The present timestamps, in order. */
  function Present(e: FileEntry): (r: seq<Timestamp>)
    ensures |r| == |NamedTimes(e)|
    ensures forall i :: 0 <= i < |r| ==> r[i] == NamedTimes(e)[i].1
  {
    var named := NamedTimes(e);
    seq(|named|, i requires 0 <= i < |named| => named[i].1)
  }

  /** All three timestamps are present (`all([...])`: a datetime is always
      truthy). */
  predicate AllPresent(e: FileEntry) {
    e.createdTime.Some? && e.modifiedTime.Some? && e.accessedTime.Some?
  }

  lemma AllPresentCount(e: FileEntry)
    ensures AllPresent(e) <==> |Present(e)| == 3
    ensures AllPresent(e) ==> Present(e) == [e.createdTime.value, e.modifiedTime.value, e.accessedTime.value]
  {
  }

  /** `_check_identical_timestamps`: at least two timestamps, all the same
      to the second as the first one. */
  function CheckIdentical(e: FileEntry): (r: bool)
    ensures r <==> |Present(e)| >= 2
                   && forall i, j :: 0 <= i < j < |Present(e)| ==> TruncSecond(Present(e)[i]) == TruncSecond(Present(e)[j])
  {
    var ts := Present(e);
    if |ts| < 2 then false
    else forall k :: 1 <= k < |ts| ==> TruncSecond(ts[k]) == TruncSecond(ts[0])
  }

  /** `_check_timestamp_order`: created strictly after modified. */
  function CheckOrder(e: FileEntry): (r: Option<Anomaly>)
    ensures r.Some? <==> e.createdTime.Some? && e.modifiedTime.Some? && e.createdTime.value > e.modifiedTime.value
    ensures r.Some? ==> r.value.kind == IllogicalOrder && r.value.severity == Medium
  {
    if e.createdTime.Some? && e.modifiedTime.Some? && e.createdTime.value > e.modifiedTime.value then
      Some(Anomaly(IllogicalOrder, "Created time is after modified time", Medium))
    else None
  }

  /** `_check_timestamp_precision`: at least two timestamps, none with a
      sub-second part. */
  function CheckPrecision(e: FileEntry): (r: Option<Anomaly>)
    ensures r.Some? ==> |Present(e)| >= 2
    ensures r.Some? ==> r.value.kind == ZeroPrecision && r.value.severity == Medium
  {
    var ts := Present(e);
    if (forall t :: t in ts ==> Microsecond(t) == 0) && |ts| >= 2 then
      Some(Anomaly(ZeroPrecision, "All timestamps have zero microseconds (possible tool usage)", Medium))
    else None
  }

  /** The names of the timestamps later than `threshold`, in order. */
  function FutureNames(named: seq<(string, Timestamp)>, threshold: Timestamp): (r: seq<string>)
    ensures |r| <= |named|
    ensures forall n :: n in r <==> exists i :: 0 <= i < |named| && named[i].0 == n && named[i].1 > threshold
  {
    if named == [] then []
    else
      var rest := FutureNames(named[1..], threshold);
      assert forall i :: 1 <= i < |named| ==> named[i] == named[1..][i - 1];
      (if named[0].1 > threshold then [named[0].0] else []) + rest
  }

  /** `_check_future_timestamps`: some timestamp later than one day past
      `now`; the description lists them all. */
  function CheckFuture(e: FileEntry, now: Timestamp): (r: Option<Anomaly>)
    ensures r.Some? <==> exists t :: t in Present(e) && t > now + DAY
    ensures r.Some? ==> r.value.kind == FutureTimestamp && r.value.severity == High
    ensures r.Some? ==> r.value.description
                        == "Timestamp(s) in the future: " + Join(FutureNames(NamedTimes(e), now + DAY), ", ")
  {
    var names := FutureNames(NamedTimes(e), now + DAY);
    if names != [] then
      assert names[0] in names;
      var i :| 0 <= i < |NamedTimes(e)| && NamedTimes(e)[i].0 == names[0] && NamedTimes(e)[i].1 > now + DAY;
      assert Present(e)[i] in Present(e);
      Some(Anomaly(FutureTimestamp, "Timestamp(s) in the future: " + Join(names, ", "), High))
    else
      assert forall t :: t in Present(e) ==> t <= now + DAY by {
        forall t | t in Present(e)
          ensures t <= now + DAY
        {
          var i :| 0 <= i < |Present(e)| && Present(e)[i] == t;
          assert NamedTimes(e)[i].0 !in names;
        }
      }
      None
  }

  // The per-file analysis

  const MissingAnomaly: Anomaly := Anomaly(MissingTimestamps, "One or more timestamps are missing", Low)
  const IdenticalAnomaly: Anomaly :=
    Anomaly(IdenticalTimestamps, "All timestamps are identical (possible timestomping)", High)

  /** The confidence an anomaly adds, in tenths. */
  function Weight(k: AnomalyKind): nat {
    match k
    case MissingTimestamps => 0
    case IdenticalTimestamps => 4
    case IllogicalOrder => 3
    case ZeroPrecision => 2
    case FutureTimestamp => 5
  }

  /** The position of a kind in the fixed order of the checks. */
  function Rank(k: AnomalyKind): nat {
    match k
    case MissingTimestamps => 0
    case IdenticalTimestamps => 1
    case IllogicalOrder => 2
    case ZeroPrecision => 3
    case FutureTimestamp => 4
  }

  function Kinds(anomalies: seq<Anomaly>): (r: seq<AnomalyKind>)
    ensures |r| == |anomalies| && forall i :: 0 <= i < |r| ==> r[i] == anomalies[i].kind
  {
    seq(|anomalies|, i requires 0 <= i < |anomalies| => anomalies[i].kind)
  }

  function TotalWeight(ks: seq<AnomalyKind>): nat {
    if ks == [] then 0 else Weight(ks[0]) + TotalWeight(ks[1..])
  }

  function Min(a: int, b: int): int {
    if a <= b then a else b
  }

  /** Which of the four rules hold. */
  datatype Rules = Rules(identical: bool, order: bool, precision: bool, future: bool)

  /** The four rules, stated on the three instants directly. */
  function RulesOf(c: Timestamp, m: Timestamp, a: Timestamp, now: Timestamp): Rules {
    Rules(TruncSecond(c) == TruncSecond(m) == TruncSecond(a),
          c > m,
          Microsecond(c) == 0 && Microsecond(m) == 0 && Microsecond(a) == 0,
          c > now + DAY || m > now + DAY || a > now + DAY)
  }

  predicate Holds(k: AnomalyKind, r: Rules) {
    match k
    case MissingTimestamps => false
    case IdenticalTimestamps => r.identical
    case IllogicalOrder => r.order
    case ZeroPrecision => r.precision
    case FutureTimestamp => r.future
  }

  /** Whether the rule for `k` fires for an entry with all three
      timestamps. */
  predicate Fires(k: AnomalyKind, e: FileEntry, now: Timestamp)
    requires AllPresent(e)
  {
    Holds(k, RulesOf(e.createdTime.value, e.modifiedTime.value, e.accessedTime.value, now))
  }

  /** The kinds of the rules that hold, in the order the checks run. */
  function HeldKinds(r: Rules): seq<AnomalyKind> {
    (if r.identical then [IdenticalTimestamps] else [])
    + (if r.order then [IllogicalOrder] else [])
    + (if r.precision then [ZeroPrecision] else [])
    + (if r.future then [FutureTimestamp] else [])
  }

  /** The sum of the weights of the rules that hold. */
  function HeldWeight(r: Rules): nat {
    (if r.identical then 4 else 0) + (if r.order then 3 else 0)
    + (if r.precision then 2 else 0) + (if r.future then 5 else 0)
  }

  function OptionList(o: Option<Anomaly>): seq<Anomaly> {
    if o.Some? then [o.value] else []
  }

  /** The anomalies of the four checks, in the order they run. */
  function CheckAnomalies(e: FileEntry, now: Timestamp): seq<Anomaly> {
    (if CheckIdentical(e) then [IdenticalAnomaly] else [])
    + OptionList(CheckOrder(e)) + OptionList(CheckPrecision(e)) + OptionList(CheckFuture(e, now))
  }

  /** The confidence the four checks add up, before the cap. */
  function CheckConfidence(e: FileEntry, now: Timestamp): nat {
    (if CheckIdentical(e) then 4 else 0)
    + (if CheckOrder(e).Some? then 3 else 0)
    + (if CheckPrecision(e).Some? then 2 else 0)
    + (if CheckFuture(e, now).Some? then 5 else 0)
  }

  /** `analyze_timestamps`: one `missing_timestamps` anomaly and nothing
      else when a timestamp is absent; otherwise the four checks in order,
      each adding its weight, capped at 1.0. */
  function AnalyzeTimestamps(e: FileEntry, now: Timestamp): (r: Analysis)
    ensures r.filePath == e.path
    ensures r.confidence <= MAX_CONFIDENCE
    ensures !AllPresent(e) ==> r.anomalies == [MissingAnomaly] && r.confidence == 0 && r.details.None?
    ensures AllPresent(e) ==>
      r.details == Some(Details(e.createdTime, e.modifiedTime, e.accessedTime, e.mftEntry))
  {
    if !AllPresent(e) then Analysis(e.path, [MissingAnomaly], 0, None)
    else
      Analysis(e.path, CheckAnomalies(e, now), Min(CheckConfidence(e, now), MAX_CONFIDENCE),
               Some(Details(e.createdTime, e.modifiedTime, e.accessedTime, e.mftEntry)))
  }

  lemma KindsAppend(a: seq<Anomaly>, b: seq<Anomaly>)
    ensures Kinds(a + b) == Kinds(a) + Kinds(b)
  {
  }

  lemma {:induction false} TotalWeightAppend(a: seq<AnomalyKind>, b: seq<AnomalyKind>)
    ensures TotalWeight(a + b) == TotalWeight(a) + TotalWeight(b)
  {
    if a != [] {
      assert (a + b)[1..] == a[1..] + b;
      TotalWeightAppend(a[1..], b);
    } else {
      assert a + b == b;
    }
  }

  /** The held kinds list each rule that holds and nothing else. */
  lemma HeldKindsMembers(r: Rules)
    ensures forall k :: k in HeldKinds(r) <==> Holds(k, r)
  {
  }

  /** The held kinds are in rank order, so no kind appears twice. */
  lemma HeldKindsOrdered(r: Rules)
    ensures var ks := HeldKinds(r); forall i, j :: 0 <= i < j < |ks| ==> Rank(ks[i]) < Rank(ks[j])
  {
    var ks := HeldKinds(r);
    forall i, j | 0 <= i < j < |ks|
      ensures Rank(ks[i]) < Rank(ks[j])
    {
      assert ks[i] in ks && ks[j] in ks;
    }
  }

  function OneKind(b: bool, k: AnomalyKind): seq<AnomalyKind> {
    if b then [k] else []
  }

  lemma OneKindWeight(b: bool, k: AnomalyKind)
    ensures TotalWeight(OneKind(b, k)) == if b then Weight(k) else 0
  {
    if b {
      assert OneKind(b, k)[1..] == [];
    }
  }

  /** The held kinds weigh what the rules weigh. */
  lemma HeldKindsWeight(r: Rules)
    ensures TotalWeight(HeldKinds(r)) == HeldWeight(r)
  {
    var i := OneKind(r.identical, IdenticalTimestamps);
    var o := OneKind(r.order, IllogicalOrder);
    var p := OneKind(r.precision, ZeroPrecision);
    var f := OneKind(r.future, FutureTimestamp);
    assert HeldKinds(r) == i + o + p + f;
    OneKindWeight(r.identical, IdenticalTimestamps);
    OneKindWeight(r.order, IllogicalOrder);
    OneKindWeight(r.precision, ZeroPrecision);
    OneKindWeight(r.future, FutureTimestamp);
    TotalWeightAppend(i + o + p, f);
    TotalWeightAppend(i + o, p);
    TotalWeightAppend(i, o);
  }

  /** The rules of an entry with all three timestamps. */
  function EntryRules(e: FileEntry, now: Timestamp): Rules
    requires AllPresent(e)
  {
    RulesOf(e.createdTime.value, e.modifiedTime.value, e.accessedTime.value, now)
  }

  lemma IdenticalMatchesRule(e: FileEntry, now: Timestamp)
    requires AllPresent(e)
    ensures CheckIdentical(e) <==> EntryRules(e, now).identical
  {
    AllPresentCount(e);
    var p := Present(e);
    assert p[0] == e.createdTime.value && p[1] == e.modifiedTime.value && p[2] == e.accessedTime.value;
  }

  lemma PrecisionMatchesRule(e: FileEntry, now: Timestamp)
    requires AllPresent(e)
    ensures CheckPrecision(e).Some? <==> EntryRules(e, now).precision
  {
    AllPresentCount(e);
  }

  lemma FutureMatchesRule(e: FileEntry, now: Timestamp)
    requires AllPresent(e)
    ensures CheckFuture(e, now).Some? <==> EntryRules(e, now).future
  {
    AllPresentCount(e);
    var p := Present(e);
    assert p[0] in p && p[1] in p && p[2] in p;
  }

  /** The kinds of four optional anomalies laid end to end, whatever the
      checks that produced them. */
  lemma KindsOfParts(i: Option<Anomaly>, o: Option<Anomaly>, p: Option<Anomaly>, f: Option<Anomaly>)
    ensures Kinds(OptionList(i) + OptionList(o) + OptionList(p) + OptionList(f))
         == Kinds(OptionList(i)) + Kinds(OptionList(o)) + Kinds(OptionList(p)) + Kinds(OptionList(f))
  {
    var a, b, c, d := OptionList(i), OptionList(o), OptionList(p), OptionList(f);
    KindsAppend(a + b + c, d);
    KindsAppend(a + b, c);
    KindsAppend(a, b);
  }

  lemma KindsOfCheck(o: Option<Anomaly>, k: AnomalyKind, fires: bool)
    requires o.Some? <==> fires
    requires o.Some? ==> o.value.kind == k
    ensures Kinds(OptionList(o)) == if fires then [k] else []
  {
  }

  /** The checks produce one anomaly per rule that holds, in order, and add
      up the weights of those rules. */
  lemma ChecksMatchRules(e: FileEntry, now: Timestamp)
    requires AllPresent(e)
    ensures Kinds(CheckAnomalies(e, now)) == HeldKinds(EntryRules(e, now))
    ensures CheckConfidence(e, now) == HeldWeight(EntryRules(e, now))
  {
    var r := EntryRules(e, now);
    IdenticalMatchesRule(e, now);
    PrecisionMatchesRule(e, now);
    FutureMatchesRule(e, now);
    var i := if CheckIdentical(e) then Some(IdenticalAnomaly) else None;
    var o, p, f := CheckOrder(e), CheckPrecision(e), CheckFuture(e, now);
    assert CheckAnomalies(e, now) == OptionList(i) + OptionList(o) + OptionList(p) + OptionList(f);
    KindsOfParts(i, o, p, f);
    KindsOfCheck(i, IdenticalTimestamps, r.identical);
    KindsOfCheck(o, IllogicalOrder, r.order);
    KindsOfCheck(p, ZeroPrecision, r.precision);
    KindsOfCheck(f, FutureTimestamp, r.future);
  }

  /** For an entry with all three timestamps, the anomalies are exactly the
      rules that fire, each once, in the fixed order identical, order,
      precision, future; the confidence is the weight of those anomalies,
      which is the weight of the rules that fire, capped at 1.0. */
  lemma AnalyzeFiresIff(e: FileEntry, now: Timestamp)
    requires AllPresent(e)
    ensures var a := AnalyzeTimestamps(e, now);
      && (forall k :: k in Kinds(a.anomalies) <==> Fires(k, e, now))
      && (forall i, j :: 0 <= i < j < |a.anomalies| ==> Rank(a.anomalies[i].kind) < Rank(a.anomalies[j].kind))
      && a.confidence == Min(TotalWeight(Kinds(a.anomalies)), MAX_CONFIDENCE)
      && a.confidence == Min(HeldWeight(EntryRules(e, now)), MAX_CONFIDENCE)
  {
    var a := AnalyzeTimestamps(e, now);
    assert a.anomalies == CheckAnomalies(e, now);
    ChecksMatchRules(e, now);
    HeldKindsMembers(EntryRules(e, now));
    HeldKindsOrdered(EntryRules(e, now));
    HeldKindsWeight(EntryRules(e, now));
    var ks := Kinds(a.anomalies);
    assert forall i :: 0 <= i < |a.anomalies| ==> a.anomalies[i].kind == ks[i];
  }

  /** Confidence is additive: identical timestamps and a future timestamp
      together already reach 0.9, and any third anomaly reaches the cap. */
  lemma ConfidenceCap(e: FileEntry, now: Timestamp)
    requires AllPresent(e) && Fires(IdenticalTimestamps, e, now) && Fires(FutureTimestamp, e, now)
    requires Fires(IllogicalOrder, e, now) || Fires(ZeroPrecision, e, now)
    ensures AnalyzeTimestamps(e, now).confidence == MAX_CONFIDENCE
  {
    ChecksMatchRules(e, now);
  }

  // The directory pass

  /** Whether an analysis is reported as suspicious (`if analysis['anomalies']`). */
  predicate IsSuspicious(a: Analysis) {
    a.anomalies != []
  }

  /** A file is suspicious exactly when it lacks a timestamp or one of the
      four rules holds; a file without timestamps is suspicious with
      confidence 0. */
  lemma SuspiciousIff(e: FileEntry, now: Timestamp)
    ensures IsSuspicious(AnalyzeTimestamps(e, now))
            <==> !AllPresent(e) || (var r := EntryRules(e, now); r.identical || r.order || r.precision || r.future)
  {
    if AllPresent(e) {
      ChecksMatchRules(e, now);
      assert |Kinds(CheckAnomalies(e, now))| == |CheckAnomalies(e, now)|;
    }
  }

  /** The analyses of the entries that are not directories, in order. */
  function AnalyzeFiles(entries: seq<FileEntry>, now: Timestamp): (r: seq<Analysis>)
    ensures |r| <= |entries|
    ensures forall a :: a in r <==> exists e :: e in entries && !e.isDirectory && a == AnalyzeTimestamps(e, now)
  {
    if entries == [] then []
    else
      var rest := AnalyzeFiles(entries[1..], now);
      assert forall e :: e in entries[1..] ==> e in entries;
      assert forall e :: e in entries ==> e == entries[0] || e in entries[1..];
      (if entries[0].isDirectory then [] else [AnalyzeTimestamps(entries[0], now)]) + rest
  }
  /** The analyses keep the order and the multiplicity of the entries:
      analysing two runs of entries analyses each in turn. */
  lemma {:induction false} AnalyzeFilesAppend(a: seq<FileEntry>, b: seq<FileEntry>, now: Timestamp)
    ensures AnalyzeFiles(a + b, now) == AnalyzeFiles(a, now) + AnalyzeFiles(b, now)
  {
    if a == [] {
      assert a + b == b;
    } else {
      assert (a + b)[0] == a[0];
      assert (a + b)[1..] == a[1..] + b;
      AnalyzeFilesAppend(a[1..], b, now);
    }
  }

  /** One entry gives its analysis, unless it is a directory. */
  lemma AnalyzeFilesOne(e: FileEntry, now: Timestamp)
    ensures AnalyzeFiles([e], now) == if e.isDirectory then [] else [AnalyzeTimestamps(e, now)]
  {
    assert [e][1..] == [];
  }


  /** The suspicious analyses, in order. */
  function SuspiciousOf(analyses: seq<Analysis>): (r: seq<Analysis>)
    ensures |r| <= |analyses|
    ensures forall a :: a in r <==> a in analyses && IsSuspicious(a)
  {
    if analyses == [] then []
    else
      var rest := SuspiciousOf(analyses[1..]);
      assert forall a :: a in analyses <==> a == analyses[0] || a in analyses[1..];
      (if IsSuspicious(analyses[0]) then [analyses[0]] else []) + rest
  }

  /** Keeping the suspicious analyses of two runs keeps those of each in turn. */
  lemma {:induction false} SuspiciousOfAppend(a: seq<Analysis>, b: seq<Analysis>)
    ensures SuspiciousOf(a + b) == SuspiciousOf(a) + SuspiciousOf(b)
  {
    if a == [] {
      assert a + b == b;
    } else {
      assert (a + b)[1..] == a[1..] + b;
      SuspiciousOfAppend(a[1..], b);
    }
  }

  /** The `statistics` of a directory pass. The average is the float
      `confidenceSum / analyzed`, kept here as its two integer parts. */
  datatype Stats = Stats(confidenceSum: nat, analyzed: nat, maxConfidence: nat, filesWithAnomalies: nat)

  /** `sum(confidence_scores)`, in tenths. */
  function ConfidenceSum(analyses: seq<Analysis>): (r: nat)
    ensures r <= MAX_CONFIDENCE * |analyses| || exists a :: a in analyses && a.confidence > MAX_CONFIDENCE
    ensures forall a :: a in analyses ==> a.confidence <= r
  {
    if analyses == [] then 0
    else
      var rest := ConfidenceSum(analyses[1..]);
      assert forall a :: a in analyses[1..] ==> a in analyses;
      analyses[0].confidence + rest
  }

  /** The sum over two runs of analyses is the sum of their sums. */
  lemma {:induction false} ConfidenceSumAppend(a: seq<Analysis>, b: seq<Analysis>)
    ensures ConfidenceSum(a + b) == ConfidenceSum(a) + ConfidenceSum(b)
  {
    if a == [] {
      assert a + b == b;
    } else {
      assert (a + b)[1..] == a[1..] + b;
      ConfidenceSumAppend(a[1..], b);
    }
  }

  /** The sum of one analysis is its confidence. */
  lemma ConfidenceSumOne(x: Analysis)
    ensures ConfidenceSum([x]) == x.confidence
  {
    assert [x][1..] == [];
  }

  /** `max(confidence_scores)`. */
  function MaxConfidence(analyses: seq<Analysis>): (r: nat)
    requires analyses != []
    ensures forall a :: a in analyses ==> a.confidence <= r
    ensures exists a :: a in analyses && a.confidence == r
  {
    if |analyses| == 1 then analyses[0].confidence
    else
      var rest := MaxConfidence(analyses[1..]);
      assert forall a :: a in analyses <==> a == analyses[0] || a in analyses[1..];
      if analyses[0].confidence >= rest then analyses[0].confidence else rest
  }

  /** One `mass_timestamp` pattern. */
  datatype Pattern = Pattern(description: string, timestamp: Timestamp, fileCount: nat, sampleFiles: seq<string>)

  /** The result of `analyze_directory`; `statistics` is None where the
      source leaves it `{}`. */
  datatype DirectoryReport = DirectoryReport(
    totalFiles: nat,
    suspicious: seq<Analysis>,
    patterns: seq<Pattern>,
    statistics: Option<Stats>)

  // Grouping by modification second

  /** Whether an entry lands in the group of `key`. */
  predicate InGroup(e: FileEntry, key: Timestamp) {
    e.modifiedTime.Some? && TruncSecond(e.modifiedTime.value) == key
  }

  /** The reference definition of a group: the paths of the entries whose
      modification time truncates to `key`, in order. */
  function PathsWithKey(entries: seq<FileEntry>, key: Timestamp): (r: seq<string>)
    ensures |r| <= |entries|
  {
    if entries == [] then []
    else
      var last := entries[|entries| - 1];
      PathsWithKey(entries[..|entries| - 1], key) + (if InGroup(last, key) then [last.path] else [])
  }

  type Groups = seq<(Timestamp, seq<string>)>

  predicate DistinctKeys(groups: Groups) {
    forall i, j :: 0 <= i < j < |groups| ==> groups[i].0 != groups[j].0
  }

  predicate HasKey(groups: Groups, key: Timestamp) {
    exists i :: 0 <= i < |groups| && groups[i].0 == key
  }

  /** One step of the grouping loop: the path joins the group of its key,
      which is opened at the end when it is new. */
  function AddToGroup(groups: Groups, key: Timestamp, path: string): (r: Groups)
    requires DistinctKeys(groups)
    ensures DistinctKeys(r)
    ensures |r| >= |groups|
    ensures forall i :: 0 <= i < |groups| ==> r[i].0 == groups[i].0
    ensures forall i :: 0 <= i < |groups| ==> r[i].1 == groups[i].1 + (if groups[i].0 == key then [path] else [])
    ensures |r| == |groups| + (if HasKey(groups, key) then 0 else 1)
    ensures |r| > |groups| ==> r[|groups|] == (key, [path])
  {
    if HasKey(groups, key) then
      var i :| 0 <= i < |groups| && groups[i].0 == key;
      groups[i := (key, groups[i].1 + [path])]
    else groups + [(key, [path])]
  }

  /** The grouping loop of `_find_timestamp_patterns` over all entries,
      directories included, keyed by the modification time truncated to
      the second, groups in order of first appearance. */
  function GroupByModified(entries: seq<FileEntry>): (r: Groups)
    ensures DistinctKeys(r)
  {
    if entries == [] then []
    else
      var groups := GroupByModified(entries[..|entries| - 1]);
      var last := entries[|entries| - 1];
      if last.modifiedTime.Some? then AddToGroup(groups, TruncSecond(last.modifiedTime.value), last.path)
      else groups
  }

  /** Each group holds exactly the paths of its key. */
  predicate GroupsMatch(g: Groups, entries: seq<FileEntry>) {
    forall i {:trigger g[i]} :: 0 <= i < |g| ==> g[i].1 == PathsWithKey(entries, g[i].0)
  }

  lemma {:induction false} GroupsHoldPaths(entries: seq<FileEntry>)
    ensures GroupsMatch(GroupByModified(entries), entries)
  {
    if entries != [] {
      var init := entries[..|entries| - 1];
      var last := entries[|entries| - 1];
      GroupsHoldPaths(init);
      GroupKeysPresent(init);
      var g0 := GroupByModified(init);
      var g := GroupByModified(entries);
      forall i | 0 <= i < |g|
        ensures g[i].1 == PathsWithKey(entries, g[i].0)
      {
        var key := g[i].0;
        assert PathsWithKey(entries, key) == PathsWithKey(init, key) + (if InGroup(last, key) then [last.path] else []);
        if last.modifiedTime.None? {
          assert g == g0 && !InGroup(last, key);
          assert g0[i].1 == PathsWithKey(init, key);
        } else {
          var k := TruncSecond(last.modifiedTime.value);
          assert InGroup(last, key) <==> key == k;
          if i < |g0| {
            assert g0[i].0 == key && g0[i].1 == PathsWithKey(init, key);
            assert g[i].1 == g0[i].1 + (if key == k then [last.path] else []);
          } else {
            assert g[i] == (k, [last.path]);
            assert !HasKey(g0, key);
            assert PathsWithKey(init, key) == [];
          }
        }
      }
    }
  }

  lemma AddToGroupKeys(groups: Groups, k: Timestamp, path: string, key: Timestamp)
    requires DistinctKeys(groups)
    ensures HasKey(AddToGroup(groups, k, path), key) <==> HasKey(groups, key) || key == k
  {
    var r := AddToGroup(groups, k, path);
    if HasKey(r, key) {
      var i :| 0 <= i < |r| && r[i].0 == key;
      if i < |groups| {
        assert groups[i].0 == key;
      }
    }
    if HasKey(groups, key) {
      var i :| 0 <= i < |groups| && groups[i].0 == key;
      assert r[i].0 == key;
    } else if key == k {
      assert r[|groups|].0 == key;
    }
  }

  /** A key has a group exactly when some entry carries it. */
  lemma {:induction false} GroupKeysPresent(entries: seq<FileEntry>)
    ensures forall key :: HasKey(GroupByModified(entries), key) <==> PathsWithKey(entries, key) != []
  {
    if entries != [] {
      var init := entries[..|entries| - 1];
      var last := entries[|entries| - 1];
      GroupKeysPresent(init);
      var g0 := GroupByModified(init);
      forall key
        ensures HasKey(GroupByModified(entries), key) <==> PathsWithKey(entries, key) != []
      {
        assert PathsWithKey(entries, key) == PathsWithKey(init, key) + (if InGroup(last, key) then [last.path] else []);
        if last.modifiedTime.Some? {
          AddToGroupKeys(g0, TruncSecond(last.modifiedTime.value), last.path, key);
        }
      }
    }
  }

  /** The `mass_timestamp` pattern of a group, if it holds more than three
      paths; the sample is its first five. */
  function GroupPattern(group: (Timestamp, seq<string>)): (r: Option<Pattern>)
    ensures r.Some? <==> |group.1| > 3
    ensures r.Some? ==> r.value.timestamp == group.0 && r.value.fileCount == |group.1|
                        && r.value.sampleFiles == group.1[..Min(5, |group.1|)]
  {
    var n := |group.1|;
    if n > 3 then
      Some(Pattern(IntToString(n) + " files have identical modification time", group.0, n, group.1[..Min(5, n)]))
    else None
  }

  function PatternsOf(groups: Groups): (r: seq<Pattern>)
    ensures |r| <= |groups|
    ensures forall p :: p in r <==> exists i :: 0 <= i < |groups| && GroupPattern(groups[i]) == Some(p)
  {
    if groups == [] then []
    else
      var rest := PatternsOf(groups[1..]);
      assert forall i :: 1 <= i < |groups| ==> groups[i] == groups[1..][i - 1];
      (if GroupPattern(groups[0]).Some? then [GroupPattern(groups[0]).value] else []) + rest
  }

  /** `_find_timestamp_patterns`. */
  function FindPatterns(entries: seq<FileEntry>): seq<Pattern> {
    PatternsOf(GroupByModified(entries))
  }

  /** A pattern counts and samples the paths of its second. */
  lemma PatternOfPaths(entries: seq<FileEntry>, p: Pattern)
    requires p in FindPatterns(entries)
    ensures var paths := PathsWithKey(entries, p.timestamp);
      |paths| > 3 && p.fileCount == |paths| && p.sampleFiles == paths[..Min(5, |paths|)]
  {
    var g := GroupByModified(entries);
    var i :| 0 <= i < |g| && GroupPattern(g[i]) == Some(p);
    GroupsHoldPaths(entries);
    assert g[i].0 == p.timestamp;
    assert g[i].1 == PathsWithKey(entries, p.timestamp);
  }

  /** A second with more than three paths has a pattern. */
  lemma PathsHavePattern(entries: seq<FileEntry>, key: Timestamp)
    requires |PathsWithKey(entries, key)| > 3
    ensures exists p :: p in FindPatterns(entries) && p.timestamp == key
  {
    var g := GroupByModified(entries);
    GroupKeysPresent(entries);
    GroupsHoldPaths(entries);
    assert HasKey(g, key);
    var i :| 0 <= i < |g| && g[i].0 == key;
    assert g[i].1 == PathsWithKey(entries, key);
    var p := GroupPattern(g[i]).value;
    assert p in FindPatterns(entries) && p.timestamp == key;
  }

  /** There is a pattern for a second exactly when more than three entries
      were modified in it; it counts them all and samples the first five
      of them in entry order. */
  lemma PatternIff(entries: seq<FileEntry>, key: Timestamp)
    ensures (exists p :: p in FindPatterns(entries) && p.timestamp == key)
            <==> |PathsWithKey(entries, key)| > 3
    ensures forall p :: p in FindPatterns(entries) && p.timestamp == key ==>
              p.fileCount == |PathsWithKey(entries, key)|
              && p.sampleFiles == PathsWithKey(entries, key)[..Min(5, |PathsWithKey(entries, key)|)]
  {
    forall p | p in FindPatterns(entries) && p.timestamp == key
      ensures |PathsWithKey(entries, key)| > 3
    {
      PatternOfPaths(entries, p);
    }
    forall p | p in FindPatterns(entries) && p.timestamp == key
      ensures p.fileCount == |PathsWithKey(entries, key)|
              && p.sampleFiles == PathsWithKey(entries, key)[..Min(5, |PathsWithKey(entries, key)|)]
    {
      PatternOfPaths(entries, p);
    }
    if |PathsWithKey(entries, key)| > 3 {
      PathsHavePattern(entries, key);
    }
  }

  /** `analyze_directory`: every entry is counted; the files that are not
      directories are analysed; the suspicious ones are listed; the
      statistics summarise the analyses; the patterns are those of the
      whole listing. */
  function AnalyzeDirectory(entries: seq<FileEntry>, now: Timestamp): (r: DirectoryReport)
    ensures r.totalFiles == |entries|
    ensures r.suspicious == SuspiciousOf(AnalyzeFiles(entries, now))
    ensures r.patterns == FindPatterns(entries)
    ensures r.statistics.None? <==> AnalyzeFiles(entries, now) == []
    ensures r.statistics.Some? ==> var files := AnalyzeFiles(entries, now);
              && r.statistics.value.filesWithAnomalies == |r.suspicious|
              && r.statistics.value.analyzed == |files|
              && r.statistics.value.confidenceSum == ConfidenceSum(files)
              && r.statistics.value.maxConfidence == MaxConfidence(files)
  {
    var files := AnalyzeFiles(entries, now);
    var suspicious := SuspiciousOf(files);
    var stats :=
      if files == [] then None
      else Some(Stats(ConfidenceSum(files), |files|, MaxConfidence(files), |suspicious|));
    DirectoryReport(|entries|, suspicious, FindPatterns(entries), stats)
  }

  /** There are analyses exactly when some entry is not a directory. */
  lemma AnalyzedIffFile(entries: seq<FileEntry>, now: Timestamp)
    ensures AnalyzeFiles(entries, now) == [] <==> forall e :: e in entries ==> e.isDirectory
  {
    var files := AnalyzeFiles(entries, now);
    if exists e :: e in entries && !e.isDirectory {
      var e :| e in entries && !e.isDirectory;
      assert AnalyzeTimestamps(e, now) in files;
    }
  }

  /** What the directory report holds: the suspicious files are exactly the
      analysed non-directories with an anomaly, and the statistics count the
      analyses, which all stay within the 1.0 cap. */
  lemma AnalyzeDirectoryFacts(entries: seq<FileEntry>, now: Timestamp)
    ensures var r := AnalyzeDirectory(entries, now);
      && (forall a :: a in r.suspicious <==>
            exists e :: e in entries && !e.isDirectory && a == AnalyzeTimestamps(e, now) && IsSuspicious(a))
      && (r.statistics.None? <==> forall e :: e in entries ==> e.isDirectory)
      && (r.statistics.Some? ==>
            && r.statistics.value.confidenceSum <= MAX_CONFIDENCE * r.statistics.value.analyzed
            && r.statistics.value.maxConfidence <= MAX_CONFIDENCE
            && 0 < r.statistics.value.analyzed <= |entries|)
  {
    var files := AnalyzeFiles(entries, now);
    AnalyzedIffFile(entries, now);
    assert forall a :: a in files ==> a.confidence <= MAX_CONFIDENCE;
    if files != [] {
      assert files[0] in files;
    }
  }

  // The report

  /** The ordering of `sorted(..., key=confidence, reverse=True)`. */
  function ByConfidenceDesc(a: Analysis, b: Analysis): bool {
    a.confidence >= b.confidence
  }

  lemma ByConfidenceDescOrders()
    ensures Total(ByConfidenceDesc) && Transitive(ByConfidenceDesc)
  {
  }

  const TOP_FILES: nat := 10

  /** The "Top Suspicious Files" of `generate_summary`: the ten most
      confident suspicious files, most confident first. */
  function TopSuspicious(suspicious: seq<Analysis>): (r: seq<Analysis>)
    ensures |r| == Min(TOP_FILES, |suspicious|)
    ensures forall i, j :: 0 <= i < j < |r| ==> r[i].confidence >= r[j].confidence
    ensures forall a :: a in r ==> a in suspicious
    ensures forall a :: a in suspicious && a !in r ==> forall b :: b in r ==> b.confidence >= a.confidence
    ensures multiset(r) <= multiset(suspicious)
  {
    ByConfidenceDescOrders();
    var sorted := Sort(suspicious, ByConfidenceDesc);
    var n := Min(TOP_FILES, |sorted|);
    TopOfSorted(suspicious, sorted, n);
    sorted[..n]
  }

  /** Ten or fewer suspicious files are all listed, each as often as it is
      suspicious. */
  lemma TopSuspiciousWhole(suspicious: seq<Analysis>)
    requires |suspicious| <= TOP_FILES
    ensures multiset(TopSuspicious(suspicious)) == multiset(suspicious)
  {
    var r := TopSuspicious(suspicious);
    var d := multiset(suspicious) - multiset(r);
    assert multiset(suspicious) == multiset(r) + d;
    assert |d| == 0;
  }

  /** The first `n` of a descending sort of the suspicious files: a
      sub-multiset of them, and at least as confident as any left out. */
  lemma TopOfSorted(suspicious: seq<Analysis>, sorted: seq<Analysis>, n: nat)
    requires multiset(sorted) == multiset(suspicious) && SortedBy(sorted, ByConfidenceDesc)
    requires n <= |sorted|
    ensures |sorted| == |suspicious|
    ensures forall a :: a in sorted[..n] ==> a in suspicious
    ensures forall a :: a in suspicious && a !in sorted[..n] ==> forall b :: b in sorted[..n] ==> b.confidence >= a.confidence
    ensures multiset(sorted[..n]) <= multiset(suspicious)
  {
    assert |multiset(sorted)| == |multiset(suspicious)|;
    forall a | a in sorted ensures a in suspicious {
      assert a in multiset(sorted);
    }
    forall a | a in suspicious && a !in sorted[..n]
      ensures forall b :: b in sorted[..n] ==> b.confidence >= a.confidence
    {
      assert a in multiset(sorted);
      var k :| 0 <= k < |sorted| && sorted[k] == a;
      assert k >= n;
    }
    assert sorted == sorted[..n] + sorted[n..];
    assert multiset(sorted) == multiset(sorted[..n]) + multiset(sorted[n..]);
  }
}
