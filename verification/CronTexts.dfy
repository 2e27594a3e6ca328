/** What particular cron texts parse to, by way of a round trip: words joined by spaces split back. */
module CronTexts {
  import opened Chars
  import opened Numbers
  import opened CronExpr

  ghost predicate IsWord(w: string) {
    w != [] && forall c :: c in w ==> !IsWhitespace(c)
  }

  /** Splitting on whitespace undoes joining with spaces. */
  lemma {:induction false} SplitWhitespaceJoins(words: seq<string>)
    requires words != [] && forall k :: 0 <= k < |words| ==> IsWord(words[k])
    ensures SplitWhitespace(Join(words, ' ')) == words
  {
    var w := words[0];
    if |words| == 1 {
      LeadingWordOf(w, []);
      assert w + [] == w && SplitWhitespace(w[|w|..]) == [];
    } else {
      var rest := Join(words[1..], ' ');
      SplitWhitespaceJoins(words[1..]);
      var tail := [' '] + rest;
      LeadingWordOf(w, tail);
      assert Join(words, ' ') == w + tail;
      assert (w + tail)[|w|..] == tail && tail[1..] == rest && (w + tail)[..|w|] == w;
    }
  }

  lemma LeadingWordOf(w: string, tail: string)
    requires IsWord(w) && (tail == [] || IsWhitespace(tail[0]))
    ensures LeadingWord(w + tail) == |w| && !IsWhitespace((w + tail)[0])
  {
    var n := LeadingWord(w + tail);
    assert (w + tail)[0] in w;
    assert forall k :: 0 <= k < |w| ==> (w + tail)[k] == w[k] && w[k] in w;
    assert tail != [] ==> (w + tail)[|w|] == tail[0];
  }

  lemma {:induction false} SplitNowhere(s: string, sep: char)
    requires sep !in s
    ensures Split(s, sep) == [s]
  {
    if s != [] {
      SplitNowhere(s[1..], sep);
      assert [s[0]] + s[1..] == s;
    }
  }

  /** A field that is one number within range allows exactly that number. */
  lemma LiteralField(field: string, v: nat, min: nat, max: nat)
    requires ',' !in field && ParsePart(field) == Literal(v) && min <= v <= max
    ensures FieldOf(field, min, max) == Accepted([v])
  {
    SplitNowhere(field, ',');
    AllowedBelowIs([field], min, max, max + 1);
    hide ParsePart;
    assert FirstFault([field]) == NoFault by { assert [field][1..] == []; }
    var values := AllowedBelow([field], min, max, max + 1);
    forall x: nat ensures x in values <==> x in [v] {
      assert FieldAllows([field], min, max, x) <==> Denotes(ParsePart([field][0]), min, max, x);
    }
    AscendingUnique(values, [v]);
  }

  /** A star allows the whole range. */
  lemma StarField(min: nat, max: nat)
    requires min <= max
    ensures FieldOf("*", min, max).Accepted? && IsWord("*")
    ensures forall x: nat :: x in FieldOf("*", min, max).values <==> min <= x <= max
  {
    SplitNowhere("*", ',');
    AllowedBelowIs(["*"], min, max, max + 1);
    assert ParsePart("*") == Star;
    assert FirstFault(["*"]) == NoFault by { assert ["*"][1..] == []; }
    var values := AllowedBelow(["*"], min, max, max + 1);
    forall x: nat ensures x in values <==> min <= x <= max {
      assert FieldAllows(["*"], min, max, x) <==> Denotes(ParsePart(["*"][0]), min, max, x);
    }
    assert min in values;
  }

  lemma DigitField(d: char, min: nat, max: nat)
    requires IsDigit(d) && min <= d as int - '0' as int <= max
    ensures FieldOf([d], min, max) == Accepted([d as int - '0' as int]) && IsWord([d])
  {
    assert DigitsValue([d]) == 10 * DigitsValue([]) + (d as int - '0' as int) by { assert [d][..0] == []; }
    assert ParsePart([d]) == Literal(d as int - '0' as int);
    LiteralField([d], d as int - '0' as int, min, max);
  }

  lemma TwentyNine()
    ensures FieldOf("29", 1, 31) == Accepted([29]) && IsWord("29")
  {
    assert "29"[..1] == "2" && "2"[..0] == [];
    assert DigitsValue("2") == 2;
    assert DigitsValue("29") == 29;
    assert ParsePart("29") == Literal(29);
    LiteralField("29", 29, 1, 31);
  }

  // ---- what the texts of numbers, ranges, steps and lists denote ----

  function Digit(d: nat): (c: char)
    requires d < 10
    ensures IsDigit(c) && c as int - '0' as int == d
  {
    ('0' as int + d) as char
  }

  /** A number in decimal. */
  function Decimal(v: nat): string {
    if v < 10 then [Digit(v)] else Decimal(v / 10) + [Digit(v % 10)]
  }

  lemma {:induction false} DecimalIs(v: nat)
    ensures Decimal(v) != [] && forall c :: c in Decimal(v) ==> IsDigit(c)
    ensures DigitsValue(Decimal(v)) == v
  {
    if v >= 10 {
      DecimalIs(v / 10);
      assert Decimal(v)[..|Decimal(v)| - 1] == Decimal(v / 10);
    } else {
      assert [Digit(v)][..0] == [];
    }
  }

  /** Numbers of 32 bits are read in decimal, with or without a plus sign; larger ones are not numbers. */
  lemma ParseDecimal(v: nat)
    ensures ParseU32(Decimal(v)) == if v < 4294967296 then Number(v) else NotANumber
    ensures ParseU32("+" + Decimal(v)) == ParseU32(Decimal(v))
  {
    DecimalIs(v);
    assert Decimal(v)[0] in Decimal(v);
    assert ("+" + Decimal(v))[1..] == Decimal(v);
  }

  /** Neither the empty text nor one with another character is a number. */
  lemma NotNumbers(s: string)
    ensures ParseU32("") == NotANumber
    ensures (exists k :: 0 < k < |s| && !IsDigit(s[k])) ==> ParseU32(s) == NotANumber
    ensures s != [] && s[0] != '+' && !IsDigit(s[0]) ==> ParseU32(s) == NotANumber
  {
    if k :| 0 < k < |s| && !IsDigit(s[k]) {
      assert s[k] in s && s[1..][k - 1] == s[k];
    }
  }

  /** One more character in front of a split text. */
  function Prepended(c: char, parts: seq<string>, sep: char): seq<string>
    requires parts != []
  {
    if c == sep then [[]] + parts else [[c] + parts[0]] + parts[1..]
  }

  lemma PrependedConcat(c: char, x: seq<string>, y: seq<string>, sep: char)
    requires x != []
    ensures Prepended(c, x + y, sep) == Prepended(c, x, sep) + y
  {
    if c != sep { assert (x + y)[1..] == x[1..] + y; }
  }

  lemma SplitCons(c: char, rest: string, sep: char)
    ensures Split([c] + rest, sep) == Prepended(c, Split(rest, sep), sep)
  {
    assert ([c] + rest)[1..] == rest;
  }

  lemma {:induction false} SplitConcat(a: string, b: string, sep: char)
    ensures Split(a + [sep] + b, sep) == Split(a, sep) + Split(b, sep)
  {
    if a == [] {
      SplitCons(sep, b, sep);
      assert a + [sep] + b == [sep] + b && Split(a, sep) == [[]];
    } else {
      var c, rest := a[0], a[1..];
      assert a == [c] + rest && a + [sep] + b == [c] + (rest + [sep] + b);
      hide Split, Prepended;
      SplitConcat(rest, b, sep);
      SplitCons(c, rest + [sep] + b, sep);
      SplitCons(c, rest, sep);
      PrependedConcat(c, Split(rest, sep), Split(b, sep), sep);
    }
  }

  /** The text before the first dash and all the text after it are the two bounds of a range. */
  lemma DashPart(a: string, b: string)
    requires '-' !in a && !("*/" <= a + "-" + b)
    ensures ParsePart(a + "-" + b) ==
      match (ParseU32(a), ParseU32(b))
      case (Number(lo), Number(hi)) => Range(lo, hi)
      case _ => Malformed
  {
    var part := a + "-" + b;
    SplitConcat(a, b, '-');
    SplitNowhere(a, '-');
    SplitJoins(b, '-');
    hide ParseU32, Split, Join;
    assert part[|a|] == '-';
    assert Split(part, '-')[0] == a && Split(part, '-')[1..] == Split(b, '-');
  }

  /** A field without commas accepts what its one part denotes. */
  lemma PartField(part: string, min: nat, max: nat)
    requires ',' !in part
    ensures ParsePart(part) == Malformed ==> FieldOf(part, min, max) == Rejected
    ensures ParsePart(part) == Step(0) ==> FieldOf(part, min, max) == Panics
    ensures ParsePart(part) != Malformed && ParsePart(part) != Step(0) ==>
      && FieldOf(part, min, max) != Panics
      && forall v: nat :: v in ValuesOf(FieldOf(part, min, max)) <==> Denotes(ParsePart(part), min, max, v)
  {
    SplitNowhere(part, ',');
    AllowedBelowIs([part], min, max, max + 1);
    hide ParsePart;
    assert [part][1..] == [];
    assert FirstFault([part]) == match ParsePart(part)
      case Malformed => MalformedPart
      case Step(n) => if n == 0 then ZeroStep else NoFault
      case _ => NoFault;
    forall v: nat ensures FieldAllows([part], min, max, v) <==> Denotes(ParsePart(part), min, max, v) {
      if Denotes(ParsePart(part), min, max, v) { assert Denotes(ParsePart([part][0]), min, max, v); }
    }
  }

  function ValuesOf(r: Parsed): seq<nat> {
    if r.Accepted? then r.values else []
  }

  lemma AcceptedIff(field: string, min: nat, max: nat)
    ensures FieldOf(field, min, max).Accepted? <==> ValuesOf(FieldOf(field, min, max)) != []
  {
    if FieldOf(field, min, max).Accepted? { AcceptedValues(field, min, max); }
  }

  lemma SomeValue(field: string, min: nat, max: nat)
    ensures var values := ValuesOf(FieldOf(field, min, max)); values != [] ==> values[0] in values
  {
  }

  /** `lo-hi` accepts exactly the numbers from lo to hi that lie in range, and is rejected if there are none. */
  lemma RangeText(lo: nat, hi: nat, min: nat, max: nat)
    requires lo < 4294967296 && hi < 4294967296
    ensures var r := FieldOf(Decimal(lo) + "-" + Decimal(hi), min, max);
            && (r == Rejected <==> lo > hi || lo > max || hi < min || min > max)
            && (r != Rejected ==> r.Accepted? && forall v: nat :: v in r.values <==> lo <= v <= hi && min <= v <= max)
  {
    var a, b := Decimal(lo), Decimal(hi);
    DecimalIs(lo);
    DecimalIs(hi);
    ParseDecimal(lo);
    ParseDecimal(hi);
    hide ParseU32, Decimal, FieldOf, ParsePart;
    assert a[0] in a && (a + "-" + b)[0] == a[0];
    DashPart(a, b);
    PartField(a + "-" + b, min, max);
    AcceptedIff(a + "-" + b, min, max);
    var least := if lo < min then min else lo;
    assert Denotes(Range(lo, hi), min, max, least) <==> least <= hi && least <= max;
    SomeValue(a + "-" + b, min, max);
  }

  /** Every n-th number from the least one on; a step of zero panics. */
  lemma StepText(n: nat, min: nat, max: nat, v: nat, k: nat)
    requires n < 4294967296 && min <= max
    ensures var r := FieldOf("*/" + Decimal(n), min, max);
            if n == 0 then r == Panics
            else && r.Accepted?
                 && (v in r.values ==> min <= v <= max && v == min + (v - min) / n * n)
                 && (min + k * n <= max ==> min + k * n in r.values)
  {
    var part := "*/" + Decimal(n);
    DecimalIs(n);
    ParseDecimal(n);
    hide ParseU32, Decimal, FieldOf;
    assert part[0] == '*' && part[1] == '/' && part[2..] == Decimal(n);
    assert ParsePart(part) == Step(n);
    hide ParsePart;
    PartField(part, min, max);
    AcceptedIff(part, min, max);
    if n > 0 {
      assert Denotes(Step(n), min, max, min);
      StepMember(n, k);
    }
  }

  lemma StepMember(n: nat, k: nat)
    requires n > 0
    ensures k * n >= 0 && (k * n) % n == 0
  {
    DivisionUnique(k * n, n, k, 0);
  }

  /** A number accepts itself if it is in range. */
  lemma NumberText(v: nat, min: nat, max: nat)
    ensures FieldOf(Decimal(v), min, max) == if v < 4294967296 && min <= v <= max then Accepted([v]) else Rejected
  {
    DecimalIs(v);
    ParseDecimal(v);
    var part := Decimal(v);
    hide ParseU32, Decimal, FieldOf;
    assert part[0] in part;
    assert ParsePart(part) == if v < 4294967296 then Literal(v) else Malformed;
    hide ParsePart;
    PartField(part, min, max);
    AcceptedIff(part, min, max);
    SomeValue(part, min, max);
    if v < 4294967296 && min <= v <= max {
      LiteralField(part, v, min, max);
    }
  }

  ghost predicate Faultless(field: string) {
    FirstFault(Split(field, ',')) == NoFault
  }

  lemma {:induction false} FaultsInOrder(a: seq<string>, b: seq<string>)
    ensures FirstFault(a + b) == if FirstFault(a) == NoFault then FirstFault(b) else FirstFault(a)
  {
    hide ParsePart;
    if a == [] {
      assert a + b == b;
    } else {
      FaultsInOrder(a[1..], b);
      assert (a + b)[1..] == a[1..] + b && (a + b)[0] == a[0];
    }
  }

  /** A comma joins two fields: the first fault decides, and without one the values are those of both. */
  lemma ListText(a: string, b: string, min: nat, max: nat)
    ensures var r, ra, rb := FieldOf(a + "," + b, min, max), FieldOf(a, min, max), FieldOf(b, min, max);
            if !Faultless(a) then r == ra
            else if !Faultless(b) then r == rb
            else r != Panics && forall v: nat :: v in ValuesOf(r) <==> v in ValuesOf(ra) || v in ValuesOf(rb)
  {
    var x, y := Split(a, ','), Split(b, ',');
    SplitConcat(a, b, ',');
    FaultsInOrder(x, y);
    AllowedBelowIs(x, min, max, max + 1);
    AllowedBelowIs(y, min, max, max + 1);
    AllowedBelowIs(x + y, min, max, max + 1);
    hide Split, FirstFault, AllowedBelow, FieldAllows, Ascending;
    forall v: nat
      ensures FieldAllows(x + y, min, max, v) <==> FieldAllows(x, min, max, v) || FieldAllows(y, min, max, v)
    {
      AllowedByEither(x, y, min, max, v);
    }
  }

  lemma AllowedByEither(x: seq<string>, y: seq<string>, min: nat, max: nat, v: nat)
    ensures FieldAllows(x + y, min, max, v) <==> FieldAllows(x, min, max, v) || FieldAllows(y, min, max, v)
  {
    hide ParsePart, Denotes;
    if k :| 0 <= k < |x| && Denotes(ParsePart(x[k]), min, max, v) { assert (x + y)[k] == x[k]; }
    if k :| 0 <= k < |y| && Denotes(ParsePart(y[k]), min, max, v) { assert (x + y)[|x| + k] == y[k]; }
    if k :| 0 <= k < |x + y| && Denotes(ParsePart((x + y)[k]), min, max, v) {
      assert (x + y)[k] == if k < |x| then x[k] else y[k - |x|];
    }
  }

  /** Five accepted fields, joined by spaces, are an accepted expression. */
  lemma FiveFields(f: seq<string>, v: seq<seq<nat>>)
    requires |f| == |v| == 5
    requires forall k :: 0 <= k < 5 ==> IsWord(f[k]) && FieldOf(f[k], RANGES[k].0, RANGES[k].1) == Accepted(v[k])
    ensures CronOf(Join(f, ' ')) == CronAccepted(Cron(v[0], v[1], v[2], v[3], v[4]))
  {
    SplitWhitespaceJoins(f);
    hide FieldOf, Join, SplitWhitespace;
    FieldsSoFar(f, RANGES, 5, v);
    assert FieldsOf(f[5..], RANGES[5..]) == Fields([]) && v + [] == v;
  }

  lemma JoinFive(a: string, b: string, c: string, d: string, e: string)
    ensures Join([a, b, c, d, e], ' ') == a + " " + b + " " + c + " " + d + " " + e
  {
    JoinCons(a, [b, c, d, e]);
    JoinCons(b, [c, d, e]);
    JoinCons(c, [d, e]);
    JoinCons(d, [e]);
  }

  lemma JoinCons(a: string, rest: seq<string>)
    requires rest != []
    ensures Join([a] + rest, ' ') == a + " " + Join(rest, ' ')
  {
    assert ([a] + rest)[1..] == rest;
  }

  /** Five stars allow every minute of every hour, every day and month of the year, and every weekday. */
  lemma FiveStars() returns (c: Cron)
    ensures CronOf("* * * * *") == CronAccepted(c)
    ensures forall v: nat :: v in c.minutes <==> v <= 59
    ensures forall v: nat :: v in c.hours <==> v <= 23
    ensures forall v: nat :: v in c.doms <==> 1 <= v <= 31
    ensures forall v: nat :: v in c.months <==> 1 <= v <= 12
    ensures forall v: nat :: v in c.dows <==> v <= 6
  {
    hide FieldOf, CronOf, IsWord, Join;
    assert "*" + " " + "*" + " " + "*" + " " + "*" + " " + "*" == "* * * * *";
    StarField(0, 59);
    StarField(0, 23);
    StarField(1, 31);
    StarField(1, 12);
    StarField(0, 6);
    JoinFive("*", "*", "*", "*", "*");
    var v := [FieldOf("*", 0, 59).values, FieldOf("*", 0, 23).values, FieldOf("*", 1, 31).values,
              FieldOf("*", 1, 12).values, FieldOf("*", 0, 6).values];
    var f := ["*", "*", "*", "*", "*"];
    forall k | 0 <= k < 5 ensures IsWord(f[k]) && FieldOf(f[k], RANGES[k].0, RANGES[k].1) == Accepted(v[k]) {
      assert k == 0 || k == 1 || k == 2 || k == 3 || k == 4;
    }
    FiveFields(f, v);
    c := Cron(v[0], v[1], v[2], v[3], v[4]);
  }

  /** Midnight on 29 February. */
  lemma LeapDayText() returns (c: Cron)
    ensures CronOf("0 0 29 2 *") == CronAccepted(c)
    ensures c.minutes == [0] && c.hours == [0] && c.doms == [29] && c.months == [2]
    ensures forall w: nat :: w < 7 ==> w in c.dows
  {
    hide FieldOf, CronOf, IsWord, Join;
    assert ['0'] + " " + ['0'] + " " + "29" + " " + ['2'] + " " + "*" == "0 0 29 2 *";
    DigitField('0', 0, 59);
    DigitField('0', 0, 23);
    TwentyNine();
    DigitField('2', 1, 12);
    StarField(0, 6);
    var days := FieldOf("*", 0, 6).values;
    JoinFive(['0'], ['0'], "29", ['2'], "*");
    var f, v := [['0'], ['0'], "29", ['2'], "*"], [[0], [0], [29], [2], days];
    forall k | 0 <= k < 5 ensures IsWord(f[k]) && FieldOf(f[k], RANGES[k].0, RANGES[k].1) == Accepted(v[k]) {
      assert k == 0 || k == 1 || k == 2 || k == 3 || k == 4;
    }
    FiveFields(f, v);
    c := Cron([0], [0], [29], [2], days);
  }

  /** Midnight on 1 January, if a Monday. */
  lemma NewYearMondayText()
    ensures CronOf("0 0 1 1 1") == CronAccepted(Cron([0], [0], [1], [1], [1]))
  {
    hide FieldOf, CronOf, IsWord, Join;
    assert ['0'] + " " + ['0'] + " " + ['1'] + " " + ['1'] + " " + ['1'] == "0 0 1 1 1";
    DigitField('0', 0, 59);
    DigitField('0', 0, 23);
    DigitField('1', 1, 31);
    DigitField('1', 1, 12);
    DigitField('1', 0, 6);
    JoinFive(['0'], ['0'], ['1'], ['1'], ['1']);
    var f, v := [['0'], ['0'], ['1'], ['1'], ['1']], [[0], [0], [1], [1], [1]];
    forall k | 0 <= k < 5 ensures IsWord(f[k]) && FieldOf(f[k], RANGES[k].0, RANGES[k].1) == Accepted(v[k]) {
      assert k == 0 || k == 1 || k == 2 || k == 3 || k == 4;
    }
    FiveFields(f, v);
  }
}
