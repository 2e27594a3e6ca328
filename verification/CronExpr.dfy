/** The cron expression parser (crates/apollo-core/src/scheduler.rs, parse_field and the head of next_cron). */
module CronExpr {
  import opened Chars

  // ---- splitting ----

  /** The pieces between separators, at least one. */
  function Split(s: string, sep: char): (parts: seq<string>)
    ensures parts != []
  {
    if s == [] then [[]]
    else
      var rest := Split(s[1..], sep);
      if s[0] == sep then [[]] + rest else [[s[0]] + rest[0]] + rest[1..]
  }

  function Join(parts: seq<string>, sep: char): string
    requires parts != []
  {
    if |parts| == 1 then parts[0] else parts[0] + [sep] + Join(parts[1..], sep)
  }

  /** Splitting loses nothing and leaves no separator behind. */
  lemma {:induction false} SplitJoins(s: string, sep: char)
    ensures Join(Split(s, sep), sep) == s
    ensures forall k :: 0 <= k < |Split(s, sep)| ==> sep !in Split(s, sep)[k]
  {
    if s != [] {
      SplitJoins(s[1..], sep);
      var rest := Split(s[1..], sep);
      if s[0] == sep {
        assert Split(s, sep) == [[]] + rest;
        hide Split, Join;
        JoinPrepended(rest, sep);
      } else {
        assert Split(s, sep) == [[s[0]] + rest[0]] + rest[1..];
        hide Split, Join;
        JoinExtended(s[0], rest, sep);
      }
    }
  }

  lemma JoinPrepended(parts: seq<string>, sep: char)
    requires parts != []
    ensures Join([[]] + parts, sep) == [sep] + Join(parts, sep)
  {
    assert ([[]] + parts)[1..] == parts;
  }

  lemma JoinExtended(c: char, parts: seq<string>, sep: char)
    requires parts != []
    ensures Join([[c] + parts[0]] + parts[1..], sep) == [c] + Join(parts, sep)
  {
    assert ([[c] + parts[0]] + parts[1..])[1..] == parts[1..];
  }

  function LeadingWord(s: string): (n: nat)
    ensures n <= |s| && (forall k :: 0 <= k < n ==> !IsWhitespace(s[k])) && (n < |s| ==> IsWhitespace(s[n]))
  {
    if s == [] || IsWhitespace(s[0]) then 0 else 1 + LeadingWord(s[1..])
  }

  /** The maximal whitespace-free pieces, none empty. */
  function SplitWhitespace(s: string): (words: seq<string>)
    ensures forall k :: 0 <= k < |words| ==> words[k] != [] && forall c :: c in words[k] ==> !IsWhitespace(c)
    decreases |s|
  {
    if s == [] then []
    else if IsWhitespace(s[0]) then SplitWhitespace(s[1..])
    else
      var n := LeadingWord(s);
      [s[..n]] + SplitWhitespace(s[n..])
  }

  // ---- numbers ----

  const U32_LIMIT: nat := 0x1_0000_0000

  predicate IsDigit(c: char) { '0' <= c <= '9' }

  function DigitsValue(s: string): nat
    requires forall c :: c in s ==> IsDigit(c)
  {
    if s == [] then 0
    else
      assert IsDigit(s[|s| - 1]);
      10 * DigitsValue(s[..|s| - 1]) + (s[|s| - 1] as int - '0' as int)
  }

  datatype Number = NotANumber | Number(value: nat)

  /** A 32-bit unsigned number: an optional '+', then at least one digit, no overflow. */
  function ParseU32(s: string): Number {
    var digits := if s != [] && s[0] == '+' then s[1..] else s;
    if digits == [] || exists c :: c in digits && !IsDigit(c) then NotANumber
    else if DigitsValue(digits) < U32_LIMIT then Number(DigitsValue(digits)) else NotANumber
  }

  // ---- one field ----

  /** What one comma-separated part of a field means. */
  datatype Part = Star | Step(n: nat) | Range(lo: nat, hi: nat) | Literal(v: nat) | Malformed

  function ParsePart(part: string): Part {
    if part == "*" then Star
    else if "*/" <= part then
      match ParseU32(part[2..])
      case Number(n) => Step(n)
      case NotANumber => Malformed
    else if '-' in part then
      var sides := Split(part, '-');
      SplitHasSep(part, '-');
      match (ParseU32(sides[0]), ParseU32(Join(sides[1..], '-')))
      case (Number(lo), Number(hi)) => Range(lo, hi)
      case _ => Malformed
    else
      match ParseU32(part)
      case Number(v) => Literal(v)
      case NotANumber => Malformed
  }

  lemma {:induction false} SplitHasSep(s: string, sep: char)
    requires sep in s
    ensures |Split(s, sep)| > 1
  {
    if s[0] != sep { SplitHasSep(s[1..], sep); }
  }

  predicate Denotes(part: Part, min: nat, max: nat, v: nat) {
    min <= v <= max &&
    match part
    case Star => true
    case Step(n) => n > 0 && (v - min) % n == 0
    case Range(lo, hi) => lo <= v <= hi
    case Literal(w) => v == w
    case Malformed => false
  }

  predicate FieldAllows(parts: seq<string>, min: nat, max: nat, v: nat) {
    exists k :: 0 <= k < |parts| && Denotes(ParsePart(parts[k]), min, max, v)
  }

  /** The step `*` slash `0` takes a remainder by zero, which panics; a malformed part rejects the field. */
  datatype Parsed = Panics | Rejected | Accepted(values: seq<nat>)

  datatype Fault = NoFault | MalformedPart | ZeroStep

  /** Parts are read left to right; the first faulty one decides. */
  function FirstFault(parts: seq<string>): Fault {
    if parts == [] then NoFault
    else
      match ParsePart(parts[0])
      case Malformed => MalformedPart
      case Step(n) => if n == 0 then ZeroStep else FirstFault(parts[1..])
      case _ => FirstFault(parts[1..])
  }

  /** The values below n that the field allows, ascending. */
  function AllowedBelow(parts: seq<string>, min: nat, max: nat, n: nat): seq<nat> {
    if n == 0 then []
    else
      var init := AllowedBelow(parts, min, max, n - 1);
      if FieldAllows(parts, min, max, n - 1) then init + [n - 1] else init
  }

  /** What a field parses to. */
  function FieldOf(field: string, min: nat, max: nat): Parsed {
    var parts := Split(field, ',');
    match FirstFault(parts)
    case MalformedPart => Rejected
    case ZeroStep => Panics
    case NoFault =>
      var values := AllowedBelow(parts, min, max, max + 1);
      if values == [] then Rejected else Accepted(values)
  }

  ghost predicate Ascending(s: seq<nat>) {
    forall i, j :: 0 <= i < j < |s| ==> s[i] < s[j]
  }

  lemma {:induction false} AllowedBelowIs(parts: seq<string>, min: nat, max: nat, n: nat)
    ensures Ascending(AllowedBelow(parts, min, max, n))
    ensures forall v: nat :: v in AllowedBelow(parts, min, max, n) <==> v < n && FieldAllows(parts, min, max, v)
  {
    if n > 0 {
      AllowedBelowIs(parts, min, max, n - 1);
      var init := AllowedBelow(parts, min, max, n - 1);
      forall i | 0 <= i < |init| ensures init[i] < n - 1 { assert init[i] in init; }
    }
  }

  /** An accepted field is a non-empty ascending list of exactly the allowed values, all in range. */
  lemma AcceptedValues(field: string, min: nat, max: nat)
    requires FieldOf(field, min, max).Accepted?
    ensures var values := FieldOf(field, min, max).values;
            && values != [] && Ascending(values)
            && forall v: nat :: v in values <==> FieldAllows(Split(field, ','), min, max, v)
  {
    AllowedBelowIs(Split(field, ','), min, max, max + 1);
  }

  // ---- the parser: collect, retain, sort, dedup ----

  function RangeSeq(lo: nat, hi: nat): (s: seq<nat>)
    ensures forall v: nat :: v in s <==> lo <= v <= hi
    decreases hi - lo
  {
    if lo > hi then [] else [lo] + RangeSeq(lo + 1, hi)
  }

  /** The values from `from` to max that are a whole number of steps above min. */
  function StepSeq(min: nat, max: nat, step: nat, from: nat): (s: seq<nat>)
    requires step > 0 && min <= from
    ensures forall v: nat :: v in s <==> from <= v <= max && (v - min) % step == 0
    decreases max - from
  {
    if from > max then []
    else (if (from - min) % step == 0 then [from] else []) + StepSeq(min, max, step, from + 1)
  }

  /** What a faultless part adds to the list, before out-of-range values are dropped. */
  function PartSeq(part: Part, min: nat, max: nat): (s: seq<nat>)
    requires part != Malformed && part != Step(0)
    ensures forall v: nat :: v in s && min <= v <= max <==> Denotes(part, min, max, v)
  {
    match part
    case Star => RangeSeq(min, max)
    case Step(n) => StepSeq(min, max, n, min)
    case Range(lo, hi) => RangeSeq(lo, hi)
    case Literal(v) => [v]
  }

  function Retain(s: seq<nat>, min: nat, max: nat): (r: seq<nat>)
    ensures forall v: nat :: v in r <==> v in s && min <= v <= max
  {
    if s == [] then []
    else
      var m := |s| - 1;
      assert s == s[..m] + [s[m]];
      if min <= s[m] <= max then Retain(s[..m], min, max) + [s[m]] else Retain(s[..m], min, max)
  }

  ghost predicate Sorted(s: seq<nat>) {
    forall i, j :: 0 <= i < j < |s| ==> s[i] <= s[j]
  }

  function Insert(s: seq<nat>, v: nat): (r: seq<nat>)
    requires Sorted(s)
    ensures Sorted(r) && multiset(r) == multiset(s) + multiset{v}
  {
    if s == [] then [v]
    else
      var m := |s| - 1;
      assert s == s[..m] + [s[m]];
      if s[m] <= v then s + [v]
      else
        var r := Insert(s[..m], v);
        assert forall i :: 0 <= i < |r| ==> r[i] <= s[m] by {
          forall i | 0 <= i < |r| ensures r[i] <= s[m] {
            assert r[i] in multiset(r);
            assert r[i] == v || r[i] in s[..m];
          }
        }
        r + [s[m]]
  }

  function Sort(s: seq<nat>): (r: seq<nat>)
    ensures Sorted(r) && multiset(r) == multiset(s)
  {
    if s == [] then []
    else
      var m := |s| - 1;
      assert s == s[..m] + [s[m]];
      Insert(Sort(s[..m]), s[m])
  }

  /** Drops repetitions of the element before. */
  function Dedup(s: seq<nat>): (r: seq<nat>)
    requires Sorted(s)
    ensures Ascending(r) && (forall v: nat :: v in r <==> v in s)
    ensures s != [] ==> r != [] && r[|r| - 1] == s[|s| - 1]
  {
    if s == [] then []
    else
      var m := |s| - 1;
      assert s == s[..m] + [s[m]];
      var r := Dedup(s[..m]);
      if m > 0 && s[m - 1] == s[m] then r else r + [s[m]]
  }

  lemma FirstIsMember(s: seq<nat>)
    ensures s != [] ==> s[0] in s
  {
  }

  lemma {:induction false} AscendingUnique(a: seq<nat>, b: seq<nat>)
    requires Ascending(a) && Ascending(b) && forall v: nat :: v in a <==> v in b
    ensures a == b
  {
    if a != [] {
      assert a[0] in b;
      var m, n := |a| - 1, |b| - 1;
      assert a[m] in b && b[n] in a;
      assert a[m] == b[n];
      forall v: nat ensures v in a[..m] <==> v in b[..n] {
        assert v in a <==> v in a[..m] || v == a[m] by { assert a == a[..m] + [a[m]]; }
        assert v in b <==> v in b[..n] || v == b[n] by { assert b == b[..n] + [b[n]]; }
      }
      AscendingUnique(a[..m], b[..n]);
      assert a == a[..m] + [a[m]] && b == b[..n] + [b[n]];
    } else {
      FirstIsMember(b);
    }
  }

  lemma {:induction false} NoFaultBefore(parts: seq<string>, k: nat)
    requires k <= |parts|
    requires forall j :: 0 <= j < k ==> ParsePart(parts[j]) != Malformed && ParsePart(parts[j]) != Step(0)
    ensures FirstFault(parts) == FirstFault(parts[k..])
  {
    if k > 0 {
      NoFaultBefore(parts[1..], k - 1);
      assert parts[1..][k - 1..] == parts[k..];
    }
  }

  ghost predicate Collects(result: seq<nat>, parts: seq<string>, min: nat, max: nat) {
    forall v: nat :: v in result && min <= v <= max <==> FieldAllows(parts, min, max, v)
  }

  lemma PartAdded(result: seq<nat>, parts: seq<string>, k: nat, min: nat, max: nat)
    requires k < |parts| && Collects(result, parts[..k], min, max)
    requires ParsePart(parts[k]) != Malformed && ParsePart(parts[k]) != Step(0)
    ensures Collects(result + PartSeq(ParsePart(parts[k]), min, max), parts[..k + 1], min, max)
  {
    hide ParsePart, Denotes;
    var part, a, b := ParsePart(parts[k]), parts[..k], parts[..k + 1];
    var result' := result + PartSeq(part, min, max);
    assert forall j :: 0 <= j < k ==> a[j] == b[j];
    assert b[k] == parts[k];
    forall v: nat ensures v in result' && min <= v <= max <==> FieldAllows(b, min, max, v) {
      assert FieldAllows(b, min, max, v) <==> FieldAllows(a, min, max, v) || Denotes(part, min, max, v);
    }
  }

  /** Retaining the range, sorting and removing repetitions leaves exactly the allowed values, ascending. */
  lemma CollectedIsAllowed(result: seq<nat>, parts: seq<string>, min: nat, max: nat)
    requires Collects(result, parts, min, max)
    ensures Dedup(Sort(Retain(result, min, max))) == AllowedBelow(parts, min, max, max + 1)
  {
    hide FieldAllows;
    var kept := Retain(result, min, max);
    var sorted := Sort(kept);
    forall v: nat ensures v in sorted <==> v in kept {
      assert v in multiset(sorted) <==> v in multiset(kept);
    }
    AllowedBelowIs(parts, min, max, max + 1);
    AllowedInRange(parts, min, max);
    AscendingUnique(Dedup(sorted), AllowedBelow(parts, min, max, max + 1));
  }

  lemma AllowedInRange(parts: seq<string>, min: nat, max: nat)
    ensures forall v: nat :: FieldAllows(parts, min, max, v) ==> min <= v <= max
  {
  }

  method ParseField(field: string, min: nat, max: nat) returns (r: Parsed)
    ensures r == FieldOf(field, min, max)
  {
    hide FieldAllows, ParsePart;
    var result: seq<nat> := [];
    var parts := Split(field, ',');
    NothingCollected(parts, min, max);
    for k := 0 to |parts|
      invariant forall j :: 0 <= j < k ==> ParsePart(parts[j]) != Malformed && ParsePart(parts[j]) != Step(0)
      invariant Collects(result, parts[..k], min, max)
    {
      NoFaultBefore(parts, k);
      var part := ParsePart(parts[k]);
      if part == Malformed { return Rejected; }
      if part == Step(0) { return Panics; }
      PartAdded(result, parts, k, min, max);
      result := result + PartSeq(part, min, max);
    }
    NoFaultBefore(parts, |parts|);
    assert parts[..|parts|] == parts;
    CollectedIsAllowed(result, parts, min, max);
    result := Dedup(Sort(Retain(result, min, max)));
    r := if result == [] then Rejected else Accepted(result);
  }

  lemma NothingCollected(parts: seq<string>, min: nat, max: nat)
    ensures Collects([], parts[..0], min, max)
  {
  }

  // ---- the five fields ----

  datatype Cron = Cron(minutes: seq<nat>, hours: seq<nat>, doms: seq<nat>, months: seq<nat>, dows: seq<nat>)

  datatype ParsedCron = CronPanics | CronRejected | CronAccepted(cron: Cron)

  datatype FieldsResult = FieldsPanic | FieldsRejected | Fields(values: seq<seq<nat>>)

  /** Fields are parsed in order and the first failure decides. */
  function FieldsOf(fields: seq<string>, ranges: seq<(nat, nat)>): (r: FieldsResult)
    requires |fields| == |ranges|
    ensures r.Fields? ==> |r.values| == |fields|
  {
    if fields == [] then Fields([])
    else
      match FieldOf(fields[0], ranges[0].0, ranges[0].1)
      case Panics => FieldsPanic
      case Rejected => FieldsRejected
      case Accepted(v) =>
        match FieldsOf(fields[1..], ranges[1..])
        case FieldsPanic => FieldsPanic
        case FieldsRejected => FieldsRejected
        case Fields(vs) => Fields([v] + vs)
  }

  /** Minute, hour, day of month, month, weekday (0 is Sunday). */
  const RANGES: seq<(nat, nat)> := [(0, 59), (0, 23), (1, 31), (1, 12), (0, 6)]

  function CronOf(expr: string): ParsedCron {
    var fields := SplitWhitespace(expr);
    if |fields| != 5 then CronRejected
    else
      match FieldsOf(fields, RANGES)
      case FieldsPanic => CronPanics
      case FieldsRejected => CronRejected
      case Fields(v) => CronAccepted(Cron(v[0], v[1], v[2], v[3], v[4]))
  }

  ghost predicate FieldOk(values: seq<nat>, min: nat, max: nat) {
    values != [] && Ascending(values) && forall v: nat :: v in values ==> min <= v <= max
  }

  ghost predicate CronOk(c: Cron) {
    && FieldOk(c.minutes, 0, 59) && FieldOk(c.hours, 0, 23) && FieldOk(c.doms, 1, 31)
    && FieldOk(c.months, 1, 12) && FieldOk(c.dows, 0, 6)
  }

  lemma FieldOfOk(field: string, min: nat, max: nat)
    ensures FieldOf(field, min, max).Accepted? ==> FieldOk(FieldOf(field, min, max).values, min, max)
  {
    if FieldOf(field, min, max).Accepted? { AcceptedValues(field, min, max); }
  }

  lemma {:induction false} FieldsOfOk(fields: seq<string>, ranges: seq<(nat, nat)>)
    requires |fields| == |ranges|
    ensures FieldsOf(fields, ranges).Fields? ==>
      forall k :: 0 <= k < |fields| ==> FieldOk(FieldsOf(fields, ranges).values[k], ranges[k].0, ranges[k].1)
  {
    hide FieldOf, FieldOk;
    if fields != [] && FieldsOf(fields, ranges).Fields? {
      FieldOfOk(fields[0], ranges[0].0, ranges[0].1);
      FieldsOfOk(fields[1..], ranges[1..]);
      var v, vs := FieldsOf(fields, ranges).values, FieldsOf(fields[1..], ranges[1..]).values;
      forall k | 0 <= k < |fields| ensures FieldOk(v[k], ranges[k].0, ranges[k].1) {
        if k > 0 { assert v[k] == vs[k - 1] && ranges[1..][k - 1] == ranges[k]; }
      }
    }
  }

  /** An accepted expression yields five non-empty ascending in-range lists. */
  lemma CronOfOk(expr: string)
    requires CronOf(expr).CronAccepted?
    ensures CronOk(CronOf(expr).cron)
  {
    hide FieldsOf, FieldOk;
    var fields := SplitWhitespace(expr);
    FieldsOfOk(fields, RANGES);
    var v := FieldsOf(fields, RANGES).values;
    assert FieldOk(v[0], RANGES[0].0, RANGES[0].1) && FieldOk(v[1], RANGES[1].0, RANGES[1].1)
        && FieldOk(v[2], RANGES[2].0, RANGES[2].1) && FieldOk(v[3], RANGES[3].0, RANGES[3].1)
        && FieldOk(v[4], RANGES[4].0, RANGES[4].1);
  }

  lemma {:induction false} FieldsSoFar(fields: seq<string>, ranges: seq<(nat, nat)>, k: nat, v: seq<seq<nat>>)
    requires |fields| == |ranges| && k <= |fields| && |v| == k
    requires forall j :: 0 <= j < k ==> FieldOf(fields[j], ranges[j].0, ranges[j].1) == Accepted(v[j])
    ensures FieldsOf(fields, ranges) ==
      match FieldsOf(fields[k..], ranges[k..])
      case Fields(vs) => Fields(v + vs)
      case other => other
  {
    hide FieldOf;
    if k > 0 {
      assert FieldOf(fields[0], ranges[0].0, ranges[0].1) == Accepted(v[0]);
      FieldsSoFar(fields[1..], ranges[1..], k - 1, v[1..]);
      assert fields[1..][k - 1..] == fields[k..] && ranges[1..][k - 1..] == ranges[k..];
      match FieldsOf(fields[k..], ranges[k..])
      case Fields(vs) => assert v + vs == [v[0]] + (v[1..] + vs);
      case _ =>
    } else {
      assert fields[0..] == fields && ranges[0..] == ranges && v == [];
      match FieldsOf(fields, ranges)
      case Fields(vs) => assert v + vs == vs;
      case _ =>
    }
  }

  method ParseCron(expr: string) returns (r: ParsedCron)
    ensures r == CronOf(expr)
  {
    hide FieldOf;
    var fields := SplitWhitespace(expr);
    if |fields| != 5 { return CronRejected; }
    var v: seq<seq<nat>> := [];
    for k := 0 to 5
      invariant |v| == k
      invariant forall j :: 0 <= j < k ==> FieldOf(fields[j], RANGES[j].0, RANGES[j].1) == Accepted(v[j])
    {
      FieldsSoFar(fields, RANGES, k, v);
      var f := ParseField(fields[k], RANGES[k].0, RANGES[k].1);
      if f.Panics? { return CronPanics; }
      if f.Rejected? { return CronRejected; }
      v := v + [f.values];
    }
    FieldsSoFar(fields, RANGES, 5, v);
    assert FieldsOf(fields[5..], RANGES[5..]) == Fields([]) && v + [] == v;
    return CronAccepted(Cron(v[0], v[1], v[2], v[3], v[4]));
  }
}
