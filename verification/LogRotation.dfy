/** Size-triggered log rotation over numbered generations (crates/apollo-core/src/types.rs, log_event_to,
    three generations; crates/apollo-runtime/src/process.rs, rotate_logs, five). */
module LogRotation {

  import opened Numbers
  import opened Options

  /** The log, absent until first written, and its older generations, newest first. */
  datatype Files = Files(current: Option<string>, older: seq<string>)

  function Text(s: Option<string>): string {
    if s.Some? then s.value else []
  }

  // ---- what rotation is for ----

  /** The log becomes the newest of at most `max` generations. */
  function Rotated(f: Files, max: nat): Files
    requires f.current.Some?
  {
    var all := [f.current.value] + f.older;
    Files(None, all[..Min(max, |all|)])
  }

  predicate Outgrown(f: Files, limit: nat) {
    f.current.Some? && |f.current.value| > limit
  }

  /** One event: rotate first if the log has outgrown the limit, then append. For an agent's log, which is rotated
      once per start, one text is all that the agent writes until its next start. */
  function Appended(f: Files, text: string, max: nat, limit: nat): Files {
    var g := if Outgrown(f, limit) then Rotated(f, max) else f;
    g.(current := Some(Text(g.current) + text))
  }

  function AppendAll(texts: seq<string>, max: nat, limit: nat): Files {
    if texts == [] then Files(None, [])
    else Appended(AppendAll(texts[..|texts| - 1], max, limit), texts[|texts| - 1], max, limit)
  }

  function Concat(texts: seq<string>): string {
    if texts == [] then [] else Concat(texts[..|texts| - 1]) + texts[|texts| - 1]
  }

  /** Oldest generation first, the log last. */
  function Retained(f: Files): string {
    Oldest(f.older) + Text(f.current)
  }

  function Oldest(older: seq<string>): string {
    if older == [] then [] else Oldest(older[1..]) + older[0]
  }

  lemma {:induction false} OldestTake(older: seq<string>, n: nat)
    requires n <= |older|
    ensures Oldest(older) == Oldest(older[n..]) + Oldest(older[..n])
  {
    if n == 0 {
      assert older[0..] == older && older[..0] == [];
    } else {
      OldestTake(older[1..], n - 1);
      assert older[1..][n - 1..] == older[n..] && older[1..][..n - 1] == older[..n][1..];
    }
  }

  /** Rotation drops text only at the old end, and only when all generations are in use. */
  lemma RotationKeepsSuffix(f: Files, max: nat)
    requires f.current.Some? && |f.older| <= max
    ensures |Rotated(f, max).older| <= max
    ensures var lost := if |f.older| < max || max == 0 then [] else f.older[max - 1];
            max > 0 ==> Retained(f) == lost + Retained(Rotated(f, max))
  {
    var all := [f.current.value] + f.older;
    var n := Min(max, |all|);
    assert all[1..] == f.older;
    OldestTake(all, n);
    if |f.older| < max {
      assert all[n..] == [];
    } else if max > 0 {
      assert all[n..] == [f.older[max - 1]];
      assert Oldest([f.older[max - 1]]) == f.older[max - 1];
    }
  }

  lemma {:induction false} LongGenerations(older: seq<string>, limit: nat)
    requires forall k :: 0 <= k < |older| ==> |older[k]| > limit
    ensures |Oldest(older)| >= |older| * (limit + 1)
  {
    if older != [] { LongGenerations(older[1..], limit); }
  }

  ghost predicate FilesInv(f: Files, max: nat, limit: nat) {
    |f.older| <= max && forall k :: 0 <= k < |f.older| ==> |f.older[k]| > limit
  }

  lemma LastAppend(texts: seq<string>, max: nat, limit: nat)
    requires max >= 1 && texts != [] && FilesInv(AppendAll(texts[..|texts| - 1], max, limit), max, limit)
    ensures FilesInv(AppendAll(texts, max, limit), max, limit)
  {
    var m := |texts| - 1;
    var f := AppendAll(texts[..m], max, limit);
    assert AppendAll(texts, max, limit) == Appended(f, texts[m], max, limit);
    hide AppendAll;
    if Outgrown(f, limit) {
      assert forall k :: 0 < k <= |f.older| ==> ([f.current.value] + f.older)[k] == f.older[k - 1];
    }
  }

  lemma RetainedSize(f: Files, max: nat, limit: nat)
    requires max >= 1 && FilesInv(f, max, limit)
    ensures |f.older| == max ==> |Retained(f)| > max * limit
  {
    LongGenerations(f.older, limit);
    assert max * (limit + 1) == max * limit + max;
  }

  /** Over any sequence of events the files hold a suffix of everything ever written; text is missing only if
      all generations exist, and then more than `max` times the limit is retained. */
  lemma {:induction false} FilesHoldSuffix(texts: seq<string>, max: nat, limit: nat) returns (lost: string)
    requires max >= 1
    ensures var f := AppendAll(texts, max, limit);
            && FilesInv(f, max, limit)
            && Concat(texts) == lost + Retained(f)
            && (lost != [] ==> |f.older| == max && |Retained(f)| > max * limit)
  {
    if texts == [] {
      lost := [];
    } else {
      var m := |texts| - 1;
      var f, text := AppendAll(texts[..m], max, limit), texts[m];
      lost := FilesHoldSuffix(texts[..m], max, limit);
      if Outgrown(f, limit) {
        RotationKeepsSuffix(f, max);
        ghost var dropped := if |f.older| < max then [] else f.older[max - 1];
        assert lost + (dropped + Retained(Rotated(f, max))) == (lost + dropped) + Retained(Rotated(f, max));
        lost := lost + dropped;
        AppendedText(Rotated(f, max), text, lost);
      } else {
        AppendedText(f, text, lost);
      }
      LastAppend(texts, max, limit);
      RetainedSize(AppendAll(texts, max, limit), max, limit);
    }
  }

  /** No file outgrows the limit by more than one text. */
  lemma {:induction false} FilesAreBounded(texts: seq<string>, max: nat, limit: nat, longest: nat)
    requires forall k :: 0 <= k < |texts| ==> |texts[k]| <= longest
    ensures var f := AppendAll(texts, max, limit);
            |Text(f.current)| <= limit + longest && forall k :: 0 <= k < |f.older| ==> |f.older[k]| <= limit + longest
  {
    if texts != [] {
      var m := |texts| - 1;
      FilesAreBounded(texts[..m], max, limit, longest);
      var f := AppendAll(texts[..m], max, limit);
      if Outgrown(f, limit) {
        var all := [f.current.value] + f.older;
        assert forall k :: 0 < k < |all| ==> all[k] == f.older[k - 1];
      }
    }
  }

  const EVENT_GENERATIONS: nat := 3
  const EVENT_LIMIT: nat := 100 * 1024 * 1024
  const AGENT_GENERATIONS: nat := 5
  const AGENT_LIMIT: nat := 10 * 1024 * 1024

  /** The event log loses nothing before it holds 300 megabytes. */
  lemma EventLogHolds(texts: seq<string>) returns (lost: string)
    ensures var f := AppendAll(texts, EVENT_GENERATIONS, EVENT_LIMIT);
            Concat(texts) == lost + Retained(f) && (lost != [] ==> |f.older| == 3 && |Retained(f)| > 314572800)
  {
    lost := FilesHoldSuffix(texts, EVENT_GENERATIONS, EVENT_LIMIT);
  }

  /** An agent's log loses nothing before it holds 50 megabytes. */
  lemma AgentLogHolds(texts: seq<string>) returns (lost: string)
    ensures var f := AppendAll(texts, AGENT_GENERATIONS, AGENT_LIMIT);
            Concat(texts) == lost + Retained(f) && (lost != [] ==> |f.older| == 5 && |Retained(f)| > 52428800)
  {
    lost := FilesHoldSuffix(texts, AGENT_GENERATIONS, AGENT_LIMIT);
  }

  lemma AppendedText(f: Files, text: string, lost: string)
    ensures Retained(f.(current := Some(Text(f.current) + text))) == Retained(f) + text
    ensures lost + Retained(f) + text == lost + (Retained(f) + text)
  {
    assert Oldest(f.older) + (Text(f.current) + text) == Oldest(f.older) + Text(f.current) + text;
  }

  // ---- the renames ----

  /** Generations 1 to n as a list. */
  ghost function ListOf(gens: map<nat, string>, n: nat): (older: seq<string>)
    requires forall k :: 1 <= k <= n ==> k in gens
    ensures |older| == n && forall k :: 0 <= k < n ==> older[k] == gens[k + 1]
  {
    if n == 0 then [] else ListOf(gens, n - 1) + [gens[n]]
  }

  /** Numbered files on disk. */
  class LogFiles {
    const max: nat
    const limit: nat
    var current: Option<string>
    var gens: map<nat, string>

    /** The existing generations are 1, 2, .., without a hole, at most `max`. */
    ghost predicate Valid()
      reads this
    {
      max >= 1 && |gens| <= max && forall n :: n in gens <==> 1 <= n <= |gens|
    }

    ghost function Contents(): Files
      requires Valid()
      reads this
    {
      Files(current, ListOf(gens, |gens|))
    }

    constructor (max: nat, limit: nat)
      requires max >= 1
      ensures Valid() && this.max == max && this.limit == limit && Contents() == Files(None, [])
    {
      this.max, this.limit := max, limit;
      current, gens := None, map[];
    }

    /** Generation n moves to n + 1, for n from max - 1 down to 1; then the log becomes generation 1.
        Renaming replaces the target; renaming a missing file fails and is ignored. */
    method Rotate()
      requires Valid() && current.Some?
      modifies this
      ensures Valid() && Contents() == Rotated(old(Contents()), max)
    {
      ghost var gens0, kept := gens, |gens|;
      var n := max - 1;
      while n >= 1
        invariant 0 <= n <= max - 1 && current == old(current)
        invariant PartlyShifted(gens0, kept, gens, n, max)
      {
        ShiftStep(gens0, kept, gens, n, max);
        if n in gens {
          gens := gens[n + 1 := gens[n]] - {n};
        }
        n := n - 1;
      }
      ShiftDone(gens0, kept, gens, max, current.value);
      gens := gens[1 := current.value];
      current := None;
    }

    method Append(text: string)
      requires Valid()
      modifies this
      ensures Valid() && Contents() == Appended(old(Contents()), text, max, limit)
    {
      if current.Some? && |current.value| > limit {
        Rotate();
      }
      assert Text(current) + text == if current.Some? then current.value + text else text;
      current := Some(if current.Some? then current.value + text else text);
    }
  }

  /** After the renames of generations max - 1 down to n + 1, out of 1..kept. */
  ghost predicate PartlyShifted(gens0: map<nat, string>, kept: nat, gens: map<nat, string>, n: nat, max: nat) {
    && (forall k: nat :: k in gens <==>
          (1 <= k <= n && k <= kept) || (k == n + 1 == max == kept) || (n + 2 <= k <= max && k - 1 <= kept))
    && (forall k: nat :: k in gens && k <= n + 1 ==> k in gens0 && gens[k] == gens0[k])
    && (forall k: nat :: k in gens && k >= n + 2 ==> k - 1 in gens0 && gens[k] == gens0[k - 1])
  }

  lemma ShiftStep(gens0: map<nat, string>, kept: nat, gens: map<nat, string>, n: nat, max: nat)
    requires PartlyShifted(gens0, kept, gens, n, max) && 1 <= n < max && kept <= max
    ensures PartlyShifted(gens0, kept, if n in gens then gens[n + 1 := gens[n]] - {n} else gens, n - 1, max)
  {
  }

  lemma ShiftDone(gens0: map<nat, string>, kept: nat, gens: map<nat, string>, max: nat, log: string)
    requires max >= 1 && kept <= max && PartlyShifted(gens0, kept, gens, 0, max)
    requires forall n :: n in gens0 <==> 1 <= n <= kept
    ensures var done := gens[1 := log];
            && |done| == Min(max, kept + 1) && (forall n :: n in done <==> 1 <= n <= |done|)
            && var all := [log] + ListOf(gens0, kept);
               ListOf(done, |done|) == all[..Min(max, |all|)]
  {
    var done := gens[1 := log];
    AllShifted(gens0, kept, gens, max, log);
    hide PartlyShifted;
    GenerationCount(done, Min(max, kept + 1));
    ShiftedList(gens0, kept, done, |done|, log);
  }

  lemma ShiftedList(gens0: map<nat, string>, kept: nat, done: map<nat, string>, n: nat, log: string)
    requires 1 <= n <= kept + 1 && (forall k :: 1 <= k <= kept ==> k in gens0)
      && (forall k :: 1 <= k <= n ==> k in done)
    requires done[1] == log && forall k :: 2 <= k <= n ==> done[k] == gens0[k - 1]
    ensures ListOf(done, n) == ([log] + ListOf(gens0, kept))[..n]
  {
    hide ListOf;
  }

  lemma AllShifted(gens0: map<nat, string>, kept: nat, gens: map<nat, string>, max: nat, log: string)
    requires max >= 1 && kept <= max && PartlyShifted(gens0, kept, gens, 0, max)
    requires forall n :: n in gens0 <==> 1 <= n <= kept
    ensures var done := gens[1 := log];
            && (forall n :: n in done <==> 1 <= n <= Min(max, kept + 1))
            && forall k :: 2 <= k <= Min(max, kept + 1) ==> done[k] == gens0[k - 1]
  {
  }

  lemma {:induction false} GenerationCount(gens: map<nat, string>, n: nat)
    requires forall k :: k in gens <==> 1 <= k <= n
    ensures |gens| == n
  {
    if n == 0 {
      assert gens == map[];
    } else {
      GenerationCount(gens - {n}, n - 1);
      assert gens.Keys == (gens - {n}).Keys + {n};
      assert |gens| == |gens.Keys| && |gens - {n}| == |(gens - {n}).Keys|;
    }
  }
}
