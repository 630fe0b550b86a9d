/**
 The reconciliation engine of `problem_2/main.go`: the date window, the
 ID-keyed transaction index, 1:1 matching of statements by reference ID,
 the signed per-pair discrepancy and its running total, and the grouping
 of unmatched statements by bank. Printing the report is left out; the
 engine returns the figures the report is printed from.
 */
module Reconciliation {
  import opened GoInt
  import opened Models
  import opened Text

  /** Seconds in the 24 hours added to the end date. */
  const DaySeconds: int := 86400

  /** A window built from two calendar dates, each given as the second of
      its midnight: from `start` inclusive to `end` plus 24 hours exclusive. */
  datatype Window = Window(start: int, end: int) {
    predicate Contains(t: int)
    {
      start <= t < end + DaySeconds
    }
  }

  /** For midnight-aligned dates the window holds exactly the timestamps
      whose calendar day lies between the two dates, both included; so a
      window with `start == end` is that whole day and nothing of the days
      around it. */
  lemma WindowDays(w: Window, t: int)
    requires w.start % DaySeconds == 0 && w.end % DaySeconds == 0
    ensures w.Contains(t) <==> w.start / DaySeconds <= t / DaySeconds <= w.end / DaySeconds
  {
    var d := t / DaySeconds;
    assert t == d * DaySeconds + t % DaySeconds;
    assert w.start == (w.start / DaySeconds) * DaySeconds;
    assert w.end == (w.end / DaySeconds) * DaySeconds;
  }

  // ---------------------------------------------------------------------
  // The transaction index

  /** The IDs of the transactions inside the window. */
  function InWindowIds(txs: seq<Transaction>, w: Window): set<string>
  {
    set i | 0 <= i < |txs| && w.Contains(txs[i].time) :: txs[i].id
  }

  lemma InWindowIdsSnoc(txs: seq<Transaction>, t: Transaction, w: Window)
    ensures InWindowIds(txs + [t], w) ==
      InWindowIds(txs, w) + (if w.Contains(t.time) then {t.id} else {})
  {
    var s := txs + [t];
    assert forall i :: 0 <= i < |txs| ==> s[i] == txs[i];
    assert s[|txs|] == t;
  }

  /** There are at most as many distinct in-window IDs as rows. */
  lemma {:induction false} InWindowIdsBound(txs: seq<Transaction>, w: Window)
    ensures |InWindowIds(txs, w)| <= |txs|
    decreases |txs|
  {
    if |txs| > 0 {
      var prior := txs[..|txs| - 1];
      assert txs == prior + [txs[|txs| - 1]];
      InWindowIdsSnoc(prior, txs[|txs| - 1], w);
      InWindowIdsBound(prior, w);
    }
  }

  /** `mapTrx`: each in-window transaction stored under its ID, a later
      row overwriting an earlier one with the same ID. */
  function BuildIndex(txs: seq<Transaction>, w: Window): (index: map<string, Transaction>)
    ensures index.Keys == InWindowIds(txs, w)
    ensures forall k :: k in index ==> index[k].id == k && w.Contains(index[k].time)
    decreases |txs|
  {
    if |txs| == 0 then map[]
    else
      var prior := txs[..|txs| - 1];
      var t := txs[|txs| - 1];
      assert txs == prior + [t];
      InWindowIdsSnoc(prior, t, w);
      var index := BuildIndex(prior, w);
      if w.Contains(t.time) then index[t.id := t] else index
  }

  /** Row `i` is in the window and no later in-window row has its ID. */
  predicate IsLatest(txs: seq<Transaction>, w: Window, i: int)
    requires 0 <= i < |txs|
  {
    && w.Contains(txs[i].time)
    && forall j :: i < j < |txs| && w.Contains(txs[j].time) ==> txs[j].id != txs[i].id
  }

  /** Last write wins: the index holds, under each ID, the last in-window
      row with that ID. */
  lemma {:induction false} BuildIndexLastWins(txs: seq<Transaction>, w: Window, i: int)
    requires 0 <= i < |txs| && IsLatest(txs, w, i)
    ensures txs[i].id in BuildIndex(txs, w) && BuildIndex(txs, w)[txs[i].id] == txs[i]
    decreases |txs|
  {
    var prior := txs[..|txs| - 1];
    if i < |txs| - 1 {
      assert IsLatest(prior, w, i) by {
        forall j | i < j < |prior| && w.Contains(prior[j].time)
          ensures prior[j].id != prior[i].id
        {
          assert prior[j] == txs[j];
        }
      }
      BuildIndexLastWins(prior, w, i);
    }
  }

  /** Conversely, every entry of the index is the last in-window row with
      its ID. */
  lemma {:induction false} IndexEntryIsLatest(txs: seq<Transaction>, w: Window, k: string) returns (i: int)
    requires k in BuildIndex(txs, w)
    ensures 0 <= i < |txs| && IsLatest(txs, w, i) && BuildIndex(txs, w)[k] == txs[i]
    decreases |txs|
  {
    var prior := txs[..|txs| - 1];
    var t := txs[|txs| - 1];
    if w.Contains(t.time) && t.id == k {
      i := |txs| - 1;
    } else {
      assert BuildIndex(txs, w)[k] == BuildIndex(prior, w)[k];
      i := IndexEntryIsLatest(prior, w, k);
      assert txs[i] == prior[i] && txs[i].id == k;
      forall j | i < j < |txs| && w.Contains(txs[j].time)
        ensures txs[j].id != txs[i].id
      {
        if j < |txs| - 1 {
          assert txs[j] == prior[j];
        }
      }
    }
  }

  // ---------------------------------------------------------------------
  // Statements: the window filter and the reference definition of matching

  /** The in-window statements, in input order. */
  function InWindowStatements(ss: seq<BankStatement>, w: Window): (f: seq<BankStatement>)
    ensures |f| <= |ss|
    ensures forall x :: x in f <==> x in ss && w.Contains(x.date)
    decreases |ss|
  {
    if |ss| == 0 then []
    else
      var prior := ss[..|ss| - 1];
      var s := ss[|ss| - 1];
      assert ss == prior + [s];
      InWindowStatements(prior, w) + (if w.Contains(s.date) then [s] else [])
  }

  /** The reference IDs the statements carry. */
  function Refs(f: seq<BankStatement>): set<string>
  {
    set i | 0 <= i < |f| :: f[i].referenceId
  }

  lemma RefsSnoc(f: seq<BankStatement>, s: BankStatement)
    ensures Refs(f + [s]) == Refs(f) + {s.referenceId}
  {
    var g := f + [s];
    assert forall i :: 0 <= i < |f| ==> g[i] == f[i];
    assert g[|f|] == s;
  }

  /** A statement that follows `prior` matches iff its reference is an
      index key that no earlier statement referenced: the first statement
      naming a transaction consumes it. */
  predicate Claims(index: map<string, Transaction>, prior: seq<BankStatement>, s: BankStatement)
  {
    s.referenceId in index && s.referenceId !in Refs(prior)
  }

  /** The statements left unmatched, in input order. */
  function UnmatchedSeq(index: map<string, Transaction>, f: seq<BankStatement>): (u: seq<BankStatement>)
    ensures |u| <= |f|
    ensures forall x :: x in u ==> x in f
    decreases |f|
  {
    if |f| == 0 then []
    else
      var prior := f[..|f| - 1];
      var s := f[|f| - 1];
      assert f == prior + [s];
      UnmatchedSeq(index, prior) + (if Claims(index, prior, s) then [] else [s])
  }

  /** The exact (unbounded) discrepancy of a matched pair: a debit is
      expected to be cancelled by a negative bank amount, a credit to equal
      the bank amount; any other type contributes nothing. */
  function ExactDiff(t: Transaction, s: BankStatement): int
  {
    if t.kind == Debit then t.amount + s.amount
    else if t.kind == Credit then s.amount - t.amount
    else 0
  }

  /** The exact sum of the discrepancies of all matched pairs. */
  function ExactDelta(index: map<string, Transaction>, f: seq<BankStatement>): int
    decreases |f|
  {
    if |f| == 0 then 0
    else
      var prior := f[..|f| - 1];
      var s := f[|f| - 1];
      ExactDelta(index, prior) + (if Claims(index, prior, s) then ExactDiff(index[s.referenceId], s) else 0)
  }

  /** The statements of bank `b`, in input order. */
  function BankFilter(u: seq<BankStatement>, b: string): (g: seq<BankStatement>)
    ensures forall x :: x in g <==> x in u && x.bankCode == b
    decreases |u|
  {
    if |u| == 0 then []
    else
      var prior := u[..|u| - 1];
      var s := u[|u| - 1];
      assert u == prior + [s];
      BankFilter(prior, b) + (if s.bankCode == b then [s] else [])
  }

  function Banks(u: seq<BankStatement>): set<string>
  {
    set i | 0 <= i < |u| :: u[i].bankCode
  }

  /** Statements grouped by bank code: one non-empty group per bank that
      occurs, each in input order. */
  function GroupByBank(u: seq<BankStatement>): (g: map<string, seq<BankStatement>>)
    ensures forall b :: b in g ==> |g[b]| > 0 && forall x :: x in g[b] ==> x in u && x.bankCode == b
    ensures forall x :: x in u ==> x.bankCode in g && x in g[x.bankCode]
  {
    map b | b in Banks(u) :: BankFilter(u, b)
  }

  // ---------------------------------------------------------------------
  // The matching loop

  /** The loop's variables: the transactions not yet matched (`mapTrx`),
      `totalMatchedTrx`, `deltaDiff` and `unmatchedBankStatements`. */
  datatype State = State(
    pending: map<string, Transaction>,
    matched: nat,
    delta: Currency,
    unmatched: map<string, seq<BankStatement>>)

  /** The discrepancy of a matched pair in `int64` arithmetic. */
  function PairDiff(t: Transaction, s: BankStatement): (d: Currency)
    ensures t.kind == Debit ==>
      (d == 0 <==> t.amount + s.amount == 0 || (t.amount == MinInt64 && s.amount == MinInt64))
    ensures t.kind == Credit ==> (d == 0 <==> s.amount == t.amount)
    ensures t.kind != Debit && t.kind != Credit ==> d == 0
    ensures d == Wrap(ExactDiff(t, s))
  {
    if t.kind == Debit then Wrap(t.amount + s.amount)
    else if t.kind == Credit then Wrap(s.amount - t.amount)
    else 0
  }

  /** One iteration over a statement: ignored outside the window; when its
      reference is still pending, counted, its discrepancy added to the
      total when non-zero, and the transaction removed; otherwise appended
      to its bank's group. */
  function Step(st: State, s: BankStatement, w: Window): State
  {
    if !w.Contains(s.date) then st
    else if s.referenceId in st.pending then
      var diff := PairDiff(st.pending[s.referenceId], s);
      st.(pending := st.pending - {s.referenceId},
          matched := st.matched + 1,
          delta := if diff != 0 then Wrap(st.delta + diff) else st.delta)
    else
      var group := if s.bankCode in st.unmatched then st.unmatched[s.bankCode] else [];
      st.(unmatched := st.unmatched[s.bankCode := group + [s]])
  }

  /** The loop over all statements, in input order. Over the whole loop
      every match still takes exactly one transaction out of the pending
      map, and the groups of unmatched statements only grow. */
  function Process(st: State, ss: seq<BankStatement>, w: Window): (r: State)
    ensures r.matched + |r.pending| == st.matched + |st.pending|
    ensures r.pending.Keys <= st.pending.Keys
    ensures forall b :: b in st.unmatched ==> b in r.unmatched && st.unmatched[b] <= r.unmatched[b]
    decreases |ss|
  {
    if |ss| == 0 then st
    else
      var mid := Process(st, ss[..|ss| - 1], w);
      StepConserves(mid, ss[|ss| - 1], w);
      Step(mid, ss[|ss| - 1], w)
  }

  /** A match moves one transaction from the pending map to the counter,
      so their sum is kept; no group is ever rewritten, only extended. */
  lemma StepConserves(st: State, s: BankStatement, w: Window)
    ensures var r := Step(st, s, w);
      && r.matched + |r.pending| == st.matched + |st.pending|
      && r.pending.Keys <= st.pending.Keys
      && forall b :: b in st.unmatched ==> b in r.unmatched && st.unmatched[b] <= r.unmatched[b]
  {
  }

  function Start(index: map<string, Transaction>): State
  {
    State(index, 0, 0, map[])
  }

  /** What the loop's variables mean after the in-window statements `f`
      have been processed: the pending transactions are those no statement
      referenced, one match per referenced index key, the exact total of
      the matched pairs' discrepancies (wrapped to `int64`), and the
      unclaimed statements grouped by bank. */
  predicate Invariant(index: map<string, Transaction>, f: seq<BankStatement>, st: State)
  {
    && st.pending == index - Refs(f)
    && st.matched == |index.Keys * Refs(f)|
    && st.delta == Wrap(ExactDelta(index, f))
    && st.unmatched == GroupByBank(UnmatchedSeq(index, f))
  }

  lemma BanksSnoc(u: seq<BankStatement>, s: BankStatement)
    ensures Banks(u + [s]) == Banks(u) + {s.bankCode}
  {
    var g := u + [s];
    assert forall i :: 0 <= i < |u| ==> g[i] == u[i];
    assert g[|u|] == s;
  }

  lemma BankFilterSnoc(u: seq<BankStatement>, s: BankStatement, b: string)
    ensures BankFilter(u + [s], b) == BankFilter(u, b) + (if s.bankCode == b then [s] else [])
  {
    assert (u + [s])[..|u|] == u;
  }

  /** Each bank's group keeps input order: the group of two batches is the
      group of the first followed by the group of the second. */
  lemma {:induction false} BankFilterAppend(u: seq<BankStatement>, v: seq<BankStatement>, b: string)
    ensures BankFilter(u + v, b) == BankFilter(u, b) + BankFilter(v, b)
    decreases |v|
  {
    if |v| == 0 {
      assert u + v == u;
    } else {
      var prior := v[..|v| - 1];
      var s := v[|v| - 1];
      var tail := if s.bankCode == b then [s] else [];
      assert v == prior + [s];
      SeqAssoc(u, prior, [s]);
      calc {
        BankFilter(u + v, b);
        BankFilter(u + prior + [s], b);
        { BankFilterSnoc(u + prior, s, b); }
        BankFilter(u + prior, b) + tail;
        { BankFilterAppend(u, prior, b); }
        BankFilter(u, b) + BankFilter(prior, b) + tail;
        { SeqAssoc(BankFilter(u, b), BankFilter(prior, b), tail); }
        BankFilter(u, b) + (BankFilter(prior, b) + tail);
        { BankFilterSnoc(prior, s, b); }
        BankFilter(u, b) + BankFilter(v, b);
      }
    }
  }

  lemma {:induction false} BankFilterAbsent(u: seq<BankStatement>, b: string)
    requires b !in Banks(u)
    ensures BankFilter(u, b) == []
    decreases |u|
  {
    if |u| > 0 {
      var prior := u[..|u| - 1];
      assert u == prior + [u[|u| - 1]];
      BanksSnoc(prior, u[|u| - 1]);
      BankFilterAbsent(prior, b);
    }
  }

  /** Appending a statement to its bank's group is grouping the extended
      sequence. */
  lemma GroupSnoc(u: seq<BankStatement>, s: BankStatement)
    ensures var g := GroupByBank(u);
      GroupByBank(u + [s]) == g[s.bankCode := (if s.bankCode in g then g[s.bankCode] else []) + [s]]
  {
    var g := GroupByBank(u);
    var g' := GroupByBank(u + [s]);
    var e := g[s.bankCode := (if s.bankCode in g then g[s.bankCode] else []) + [s]];
    BanksSnoc(u, s);
    assert g'.Keys == e.Keys;
    forall b | b in g'
      ensures g'[b] == e[b]
    {
      BankFilterSnoc(u, s, b);
      if b == s.bankCode && b !in g {
        BankFilterAbsent(u, b);
      }
    }
  }

  lemma UnmatchedSnoc(index: map<string, Transaction>, f: seq<BankStatement>, s: BankStatement)
    ensures UnmatchedSeq(index, f + [s]) == UnmatchedSeq(index, f) + (if Claims(index, f, s) then [] else [s])
    ensures ExactDelta(index, f + [s]) == ExactDelta(index, f) + (if Claims(index, f, s) then ExactDiff(index[s.referenceId], s) else 0)
  {
    assert (f + [s])[..|f|] == f;
  }

  lemma StepPending(index: map<string, Transaction>, f: seq<BankStatement>, st: State, s: BankStatement, w: Window)
    requires st.pending == index - Refs(f)
    requires w.Contains(s.date)
    ensures Step(st, s, w).pending == index - Refs(f + [s])
    ensures s.referenceId in st.pending <==> Claims(index, f, s)
  {
    RefsSnoc(f, s);
  }

  lemma StepMatched(index: map<string, Transaction>, f: seq<BankStatement>, st: State, s: BankStatement, w: Window)
    requires st.pending == index - Refs(f)
    requires st.matched == |index.Keys * Refs(f)|
    requires w.Contains(s.date)
    ensures Step(st, s, w).matched == |index.Keys * Refs(f + [s])|
  {
    StepPending(index, f, st, s, w);
    MatchedSnoc(index, f, s);
    assert Step(st, s, w).matched == st.matched + (if s.referenceId in st.pending then 1 else 0);
  }

  /** A statement adds one matched key exactly when it claims one. */
  lemma MatchedSnoc(index: map<string, Transaction>, f: seq<BankStatement>, s: BankStatement)
    ensures |index.Keys * Refs(f + [s])| == |index.Keys * Refs(f)| + (if Claims(index, f, s) then 1 else 0)
  {
    RefsSnoc(f, s);
    if Claims(index, f, s) {
      assert index.Keys * Refs(f + [s]) == (index.Keys * Refs(f)) + {s.referenceId};
    } else {
      assert index.Keys * Refs(f + [s]) == index.Keys * Refs(f);
    }
  }

  lemma StepDelta(index: map<string, Transaction>, f: seq<BankStatement>, st: State, s: BankStatement, w: Window)
    requires st.pending == index - Refs(f)
    requires st.delta == Wrap(ExactDelta(index, f))
    requires w.Contains(s.date)
    ensures Step(st, s, w).delta == Wrap(ExactDelta(index, f + [s]))
  {
    UnmatchedSnoc(index, f, s);
    StepPending(index, f, st, s, w);
    if Claims(index, f, s) {
      WrapAdd(ExactDelta(index, f), ExactDiff(index[s.referenceId], s));
    }
  }

  lemma StepGroups(index: map<string, Transaction>, f: seq<BankStatement>, st: State, s: BankStatement, w: Window)
    requires st.pending == index - Refs(f)
    requires st.unmatched == GroupByBank(UnmatchedSeq(index, f))
    requires w.Contains(s.date)
    ensures Step(st, s, w).unmatched == GroupByBank(UnmatchedSeq(index, f + [s]))
  {
    var u := UnmatchedSeq(index, f);
    UnmatchedSnoc(index, f, s);
    StepPending(index, f, st, s, w);
    if Claims(index, f, s) {
      assert UnmatchedSeq(index, f + [s]) == u;
      assert Step(st, s, w).unmatched == st.unmatched;
    } else {
      assert UnmatchedSeq(index, f + [s]) == u + [s];
      GroupSnoc(u, s);
      var g := st.unmatched;
      assert Step(st, s, w).unmatched == g[s.bankCode := (if s.bankCode in g then g[s.bankCode] else []) + [s]];
    }
  }

  lemma InWindowSnoc(ss: seq<BankStatement>, s: BankStatement, w: Window)
    ensures InWindowStatements(ss + [s], w) == InWindowStatements(ss, w) + (if w.Contains(s.date) then [s] else [])
  {
    assert (ss + [s])[..|ss|] == ss;
  }

  /** The window filter keeps input order: filtering two batches read one
      after the other gives the first batch's survivors, then the second's. */
  lemma {:induction false} InWindowAppend(a: seq<BankStatement>, b: seq<BankStatement>, w: Window)
    ensures InWindowStatements(a + b, w) == InWindowStatements(a, w) + InWindowStatements(b, w)
    decreases |b|
  {
    if |b| == 0 {
      assert a + b == a;
    } else {
      var prior := b[..|b| - 1];
      var s := b[|b| - 1];
      var tail := if w.Contains(s.date) then [s] else [];
      assert b == prior + [s];
      SeqAssoc(a, prior, [s]);
      calc {
        InWindowStatements(a + b, w);
        InWindowStatements(a + prior + [s], w);
        { InWindowSnoc(a + prior, s, w); }
        InWindowStatements(a + prior, w) + tail;
        { InWindowAppend(a, prior, w); }
        InWindowStatements(a, w) + InWindowStatements(prior, w) + tail;
        { SeqAssoc(InWindowStatements(a, w), InWindowStatements(prior, w), tail); }
        InWindowStatements(a, w) + (InWindowStatements(prior, w) + tail);
        { InWindowSnoc(prior, s, w); }
        InWindowStatements(a, w) + InWindowStatements(b, w);
      }
    }
  }

  lemma InvariantStart(index: map<string, Transaction>)
    ensures Invariant(index, [], Start(index))
  {
    assert Refs([]) == {};
    assert index - Refs([]) == index;
    assert index.Keys * Refs([]) == {};
    assert GroupByBank([]) == map[];
  }

  /** One iteration keeps the invariant; a statement outside the window
      changes nothing. */
  lemma StepInvariant(index: map<string, Transaction>, f: seq<BankStatement>, st: State, s: BankStatement, w: Window)
    requires Invariant(index, f, st)
    ensures Invariant(index, f + (if w.Contains(s.date) then [s] else []), Step(st, s, w))
  {
    if w.Contains(s.date) {
      StepPending(index, f, st, s, w);
      StepMatched(index, f, st, s, w);
      StepDelta(index, f, st, s, w);
      StepGroups(index, f, st, s, w);
    } else {
      assert f + [] == f;
    }
  }

  /** The loop establishes the invariant over the in-window statements. */
  lemma {:induction false} ProcessInvariant(index: map<string, Transaction>, ss: seq<BankStatement>, w: Window)
    ensures Invariant(index, InWindowStatements(ss, w), Process(Start(index), ss, w))
    decreases |ss|
  {
    if |ss| == 0 {
      InvariantStart(index);
    } else {
      var prior := ss[..|ss| - 1];
      var s := ss[|ss| - 1];
      var f := InWindowStatements(prior, w);
      var st := Process(Start(index), prior, w);
      ProcessInvariant(index, prior, w);
      assert InWindowStatements(ss, w) == f + (if w.Contains(s.date) then [s] else []);
      assert Process(Start(index), ss, w) == Step(st, s, w);
      StepInvariant(index, f, st, s, w);
    }
  }

  // ---------------------------------------------------------------------
  // Counting

  /** Index values are told apart by their IDs, so there are as many
      values as keys. */
  lemma {:induction false} ValuesCount(m: map<string, Transaction>)
    requires forall k :: k in m ==> m[k].id == k
    ensures |m.Values| == |m|
    decreases |m|
  {
    if |m| > 0 {
      var k :| k in m;
      var m' := m - {k};
      ValuesCount(m');
      forall v | v in m.Values
        ensures v in m'.Values + {m[k]}
      {
        var k' :| k' in m && m[k'] == v;
        if k' != k {
          assert k' in m' && m'[k'] == v;
        }
      }
      forall v | v in m'.Values
        ensures v in m.Values
      {
        var k' :| k' in m' && m'[k'] == v;
        assert k' in m && m[k'] == v;
      }
      assert m.Values == m'.Values + {m[k]};
      assert m[k] !in m'.Values;
    }
  }

  /** Every in-window statement is counted once: either as a match or as
      an unmatched statement. */
  lemma {:induction false} MatchedPlusUnmatched(index: map<string, Transaction>, f: seq<BankStatement>)
    ensures |index.Keys * Refs(f)| + |UnmatchedSeq(index, f)| == |f|
    decreases |f|
  {
    if |f| == 0 {
      assert Refs(f) == {};
    } else {
      var prior := f[..|f| - 1];
      var s := f[|f| - 1];
      assert f == prior + [s];
      MatchedPlusUnmatched(index, prior);
      UnmatchedSnoc(index, prior, s);
      MatchedSnoc(index, prior, s);
    }
  }

  /** A statement that does not claim a transaction stays in the unmatched
      sequence. */
  lemma {:induction false} UnclaimedIsUnmatched(index: map<string, Transaction>, f: seq<BankStatement>, j: int)
    requires 0 <= j < |f| && !Claims(index, f[..j], f[j])
    ensures f[j] in UnmatchedSeq(index, f)
    decreases |f|
  {
    var prior := f[..|f| - 1];
    var s := f[|f| - 1];
    assert f == prior + [s];
    UnmatchedSnoc(index, prior, s);
    if j < |f| - 1 {
      assert prior[..j] == f[..j] && prior[j] == f[j];
      UnclaimedIsUnmatched(index, prior, j);
    }
  }

  /** Matching is 1:1: once a statement has matched a transaction, a later
      statement with the same reference is unmatched. */
  lemma SecondReferenceUnmatched(index: map<string, Transaction>, f: seq<BankStatement>, i: int, j: int)
    requires 0 <= i < j < |f| && f[i].referenceId == f[j].referenceId
    ensures f[j] in UnmatchedSeq(index, f)
  {
    assert f[..j][i] == f[i];
    assert f[j].referenceId in Refs(f[..j]);
    UnclaimedIsUnmatched(index, f, j);
  }

  // ---------------------------------------------------------------------
  // The engine

  /** The figures of the report: transactions processed, statements
      matched, the total discrepancy, the transactions no statement
      matched, and the unmatched statements grouped by bank. */
  datatype Summary = Summary(
    processed: nat,
    matched: nat,
    delta: Currency,
    unmatchedTransactions: set<Transaction>,
    unmatchedStatements: map<string, seq<BankStatement>>)

  /** The body of `reconciliation` between reading the files and printing:
      index the in-window transactions, run the matching loop over the
      statements, and collect what remains. */
  function Reconcile(txs: seq<Transaction>, ss: seq<BankStatement>, w: Window): (r: Summary)
    ensures r.processed == |InWindowIds(txs, w)|
    ensures r.matched == |InWindowIds(txs, w) * Refs(InWindowStatements(ss, w))|
    ensures r.matched + |r.unmatchedTransactions| == r.processed
    ensures forall t :: t in r.unmatchedTransactions <==>
      t in BuildIndex(txs, w).Values && t.id !in Refs(InWindowStatements(ss, w))
    ensures r.delta == Wrap(ExactDelta(BuildIndex(txs, w), InWindowStatements(ss, w)))
    ensures r.unmatchedStatements == GroupByBank(UnmatchedSeq(BuildIndex(txs, w), InWindowStatements(ss, w)))
  {
    var index := BuildIndex(txs, w);
    var st := Process(Start(index), ss, w);
    ProcessInvariant(index, ss, w);
    PendingAfterLoop(index, Refs(InWindowStatements(ss, w)));
    Summary(|index|, st.matched, st.delta, st.pending.Values, st.unmatched)
  }

  /** The whole summary in terms of the reference definitions alone. */
  lemma ReconcileSummary(txs: seq<Transaction>, ss: seq<BankStatement>, w: Window)
    ensures var index := BuildIndex(txs, w);
      var f := InWindowStatements(ss, w);
      Reconcile(txs, ss, w) == Summary(
        |InWindowIds(txs, w)|,
        |index.Keys * Refs(f)|,
        Wrap(ExactDelta(index, f)),
        (set t | t in index.Values && t.id !in Refs(f)),
        GroupByBank(UnmatchedSeq(index, f)))
  {
  }

  /** The transactions left pending once the references `refs` were
      consumed: their number, and which ones they are. */
  lemma PendingAfterLoop(index: map<string, Transaction>, refs: set<string>)
    requires forall k :: k in index ==> index[k].id == k
    ensures |index.Keys * refs| + |(index - refs).Values| == |index|
    ensures forall t :: t in (index - refs).Values <==> t in index.Values && t.id !in refs
  {
    var pending := index - refs;
    ValuesCount(pending);
    assert pending.Keys == index.Keys - refs;
    assert index.Keys == (index.Keys * refs) + pending.Keys;
    assert (index.Keys * refs) !! pending.Keys;
  }

  lemma {:induction false} InWindowIdempotent(ss: seq<BankStatement>, w: Window)
    ensures InWindowStatements(InWindowStatements(ss, w), w) == InWindowStatements(ss, w)
    decreases |ss|
  {
    if |ss| > 0 {
      var prior := ss[..|ss| - 1];
      var s := ss[|ss| - 1];
      assert ss == prior + [s];
      InWindowIdempotent(prior, w);
      InWindowSnoc(prior, s, w);
      var f := InWindowStatements(prior, w);
      if w.Contains(s.date) {
        assert InWindowStatements(ss, w) == f + [s];
        InWindowSnoc(f, s, w);
      } else {
        assert InWindowStatements(ss, w) == f + [];
        assert f + [] == f;
      }
    }
  }

  /** Statements outside the window are neither matched nor listed: the
      summary is the one computed from the in-window statements alone, and
      every listed statement is in the window. */
  lemma OutOfWindowIgnored(txs: seq<Transaction>, ss: seq<BankStatement>, w: Window)
    ensures Reconcile(txs, ss, w) == Reconcile(txs, InWindowStatements(ss, w), w)
    ensures var g := Reconcile(txs, ss, w).unmatchedStatements;
      forall b, x :: b in g && x in g[b] ==> w.Contains(x.date)
  {
    InWindowIdempotent(ss, w);
    var r1 := Reconcile(txs, ss, w);
    var r2 := Reconcile(txs, InWindowStatements(ss, w), w);
    assert r1.unmatchedTransactions == r2.unmatchedTransactions;
  }

  /** Every in-window statement either matches a transaction or is listed
      in the group of its own bank, and the two counts add up to the number
      of in-window statements. */
  lemma StatementsPartitioned(txs: seq<Transaction>, ss: seq<BankStatement>, w: Window, j: int)
    requires 0 <= j < |InWindowStatements(ss, w)|
    ensures var f := InWindowStatements(ss, w);
      var r := Reconcile(txs, ss, w);
      && r.matched + |UnmatchedSeq(BuildIndex(txs, w), f)| == |f|
      && (Claims(BuildIndex(txs, w), f[..j], f[j]) ||
          (f[j].bankCode in r.unmatchedStatements && f[j] in r.unmatchedStatements[f[j].bankCode]))
  {
    var f := InWindowStatements(ss, w);
    var index := BuildIndex(txs, w);
    MatchedPlusUnmatched(index, f);
    if !Claims(index, f[..j], f[j]) {
      UnclaimedIsUnmatched(index, f, j);
    }
  }

  /** The unmatched transactions are the last in-window rows of their IDs
      that no in-window statement references. */
  lemma UnmatchedTransactionsAreLatest(txs: seq<Transaction>, ss: seq<BankStatement>, w: Window, t: Transaction)
    requires t in Reconcile(txs, ss, w).unmatchedTransactions
    ensures exists i :: 0 <= i < |txs| && txs[i] == t && IsLatest(txs, w, i)
    ensures t.id !in Refs(InWindowStatements(ss, w))
  {
    var index := BuildIndex(txs, w);
    var k :| k in index && index[k] == t;
    var i := IndexEntryIsLatest(txs, w, k);
  }

  /** Conversely, the last in-window row of an ID is unmatched exactly when
      no in-window statement references that ID. */
  lemma LatestUnmatchedIff(txs: seq<Transaction>, ss: seq<BankStatement>, w: Window, i: int)
    requires 0 <= i < |txs| && IsLatest(txs, w, i)
    ensures txs[i] in Reconcile(txs, ss, w).unmatchedTransactions <==>
      txs[i].id !in Refs(InWindowStatements(ss, w))
  {
    BuildIndexLastWins(txs, w, i);
  }
}
