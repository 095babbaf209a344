/**
 * The participant ledger of the QR-code contest server: a flat list of
 * (code, result) records, the participation query over it, and the
 * submission that appends a record and then caps the number of winners.
 */
module Contest {

  datatype Option<+T> = None | Some(value: T)

  /** The outcome drawn for a participant. */
  datatype Result = Win | Lose

  /** One row of the ledger. */
  datatype Record = Record(code: string, result: Result)

  /** The two ways a request is refused (both answered with status 400). */
  datatype Error = CodeRequired | CodeAlreadyUsed

  datatype Response<+T> = Ok(value: T) | Err(error: Error)

  /** The number of winners the ledger keeps after a submission. */
  const MAX_WINNERS: nat := 10

  /** The text of the error body sent back for each refusal. */
  function Message(e: Error): (text: string)
    ensures text == "Code is required." <==> e == CodeRequired
    ensures text == "This code has already been used." <==> e == CodeAlreadyUsed
  {
    match e
    case CodeRequired => "Code is required."
    case CodeAlreadyUsed => "This code has already been used."
  }

  /** A request field the server treats as falsy: absent, or the empty string. */
  predicate Missing(code: Option<string>): (b: bool)
    ensures !b <==> code.Some? && |code.value| > 0
  {
    code.None? || code.value == ""
  }

  function Min(a: nat, b: nat): nat
  {
    if a <= b then a else b
  }

  // ---------------------------------------------------------------------------
  // Specification predicates over the ledger

  /** Some record of the ledger carries this code. */
  ghost predicate Participated(s: seq<Record>, code: string)
  {
    exists i :: 0 <= i < |s| && s[i].code == code
  }

  /** No two records of the ledger share a code. */
  ghost predicate UniqueCodes(s: seq<Record>)
  {
    forall i, j :: 0 <= i < j < |s| ==> s[i].code != s[j].code
  }

  // ---------------------------------------------------------------------------
  // The list operations the handlers use

  /** Whether any record has the given code (the query's `some`). */
  function AnyWithCode(s: seq<Record>, code: string): (b: bool)
    ensures b <==> Participated(s, code)
  {
    if s == [] then false
    else
      assert forall i :: 1 <= i < |s| ==> s[i] == s[1..][i - 1];
      s[0].code == code || AnyWithCode(s[1..], code)
  }

  /** The first record with the given code, if any (the submission's `find`). */
  function FindByCode(s: seq<Record>, code: string): (r: Option<Record>)
    ensures r.None? <==> !Participated(s, code)
    ensures r.Some? ==>
      exists i :: 0 <= i < |s| && s[i] == r.value && s[i].code == code &&
        (forall j :: 0 <= j < i ==> s[j].code != code)
  {
    if s == [] then None
    else if s[0].code == code then Some(s[0])
    else
      var r := FindByCode(s[1..], code);
      assert forall i :: 1 <= i < |s| ==> s[i] == s[1..][i - 1];
      assert r.Some? ==>
        (exists i :: 1 <= i < |s| && s[i] == r.value && s[i].code == code &&
          (forall j :: 0 <= j < i ==> s[j].code != code));
      r
  }

  /** The records with the given result, in ledger order (the `filter` on result). */
  function WithResult(s: seq<Record>, o: Result): (r: seq<Record>)
    ensures |r| <= |s|
    ensures forall i :: 0 <= i < |r| ==> r[i].result == o
  {
    if s == [] then []
    else (if s[0].result == o then [s[0]] else []) + WithResult(s[1..], o)
  }

  /** The number of winning records. */
  function WinCount(s: seq<Record>): (n: nat)
    ensures n <= |s|
  {
    |WithResult(s, Win)|
  }

  /** The codes of a list of records, in order (the `map` to codes). */
  function Codes(w: seq<Record>): (r: seq<string>)
    ensures |r| == |w|
    ensures forall i :: 0 <= i < |w| ==> r[i] == w[i].code
  {
    seq(|w|, i requires 0 <= i < |w| => w[i].code)
  }

  /** The records whose code is not listed, in ledger order (the final `filter`). */
  function WithoutCodes(s: seq<Record>, cs: seq<string>): (r: seq<Record>)
    ensures |r| <= |s|
    ensures forall i :: 0 <= i < |r| ==> r[i].code !in cs
  {
    if s == [] then []
    else (if s[0].code in cs then [] else [s[0]]) + WithoutCodes(s[1..], cs)
  }

  /**
   * The winner-cap pass: when more than MAX_WINNERS records are winners, drop
   * every record whose code belongs to a winner past the MAX_WINNERS-th.
   */
  function CapWinners(s: seq<Record>): (r: seq<Record>)
    ensures |r| <= |s|
    ensures forall x :: x in r ==> x in s
  {
    var winners := WithResult(s, Win);
    if |winners| > MAX_WINNERS then
      var cs := Codes(winners)[MAX_WINNERS..];
      WithoutCodesMembers(s, cs);
      WithoutCodes(s, cs)
    else s
  }

  /** The ledger after an accepted submission of `code` with outcome `o`. */
  function AfterSubmit(s: seq<Record>, code: string, o: Result): (r: seq<Record>)
    ensures |r| <= |s| + 1
    ensures forall x :: x in r ==> x in s || x == Record(code, o)
    ensures WinCount(r) <= MAX_WINNERS
  {
    CapBound(s + [Record(code, o)]);
    CapWinners(s + [Record(code, o)])
  }

  /**
   * Reference definition of the intended cap: walk the ledger in order,
   * keeping every losing record and the first k winning ones.
   */
  function KeepFirstWinners(s: seq<Record>, k: nat): (r: seq<Record>)
    ensures |r| <= |s|
  {
    if s == [] then []
    else if s[0].result == Lose then [s[0]] + KeepFirstWinners(s[1..], k)
    else if k > 0 then [s[0]] + KeepFirstWinners(s[1..], k - 1)
    else KeepFirstWinners(s[1..], k)
  }

  // ---------------------------------------------------------------------------
  // Helper lemmas

  /** The filter on result keeps exactly the records with that result. */
  lemma {:induction false} WithResultMembers(s: seq<Record>, o: Result)
    ensures forall x :: x in WithResult(s, o) <==> x in s && x.result == o
  {
    if s != [] {
      WithResultMembers(s[1..], o);
      assert s == [s[0]] + s[1..];
    }
  }

  /** The filter on codes keeps exactly the records whose code is not listed. */
  lemma {:induction false} WithoutCodesMembers(s: seq<Record>, cs: seq<string>)
    ensures forall x :: x in WithoutCodes(s, cs) <==> x in s && x.code !in cs
  {
    if s != [] {
      WithoutCodesMembers(s[1..], cs);
      assert s == [s[0]] + s[1..];
    }
  }

  lemma {:induction false} WithResultAppend(s: seq<Record>, t: seq<Record>, o: Result)
    ensures WithResult(s + t, o) == WithResult(s, o) + WithResult(t, o)
  {
    if s != [] {
      var u := s + t;
      assert u[0] == s[0] && u[1..] == s[1..] + t;
      WithResultAppend(s[1..], t, o);
      var head := if s[0].result == o then [s[0]] else [];
      assert WithResult(u, o) == head + WithResult(s[1..] + t, o);
      assert WithResult(s, o) == head + WithResult(s[1..], o);
    } else {
      assert s + t == t;
    }
  }

  lemma {:induction false} WithoutCodesAppend(s: seq<Record>, t: seq<Record>, cs: seq<string>)
    ensures WithoutCodes(s + t, cs) == WithoutCodes(s, cs) + WithoutCodes(t, cs)
  {
    if s != [] {
      var u := s + t;
      assert u[0] == s[0] && u[1..] == s[1..] + t;
      WithoutCodesAppend(s[1..], t, cs);
      if s[0].code in cs {
        assert WithoutCodes(u, cs) == WithoutCodes(s[1..] + t, cs);
        assert WithoutCodes(s, cs) == WithoutCodes(s[1..], cs);
      } else {
        assert WithoutCodes(u, cs) == [s[0]] + WithoutCodes(s[1..] + t, cs);
        assert WithoutCodes(s, cs) == [s[0]] + WithoutCodes(s[1..], cs);
      }
    } else {
      assert s + t == t;
    }
  }

  /** Removing codes that no record carries changes nothing. */
  lemma {:induction false} WithoutAbsentCodes(s: seq<Record>, cs: seq<string>)
    requires forall i :: 0 <= i < |s| ==> s[i].code !in cs
    ensures WithoutCodes(s, cs) == s
  {
    if s != [] {
      WithoutAbsentCodes(s[1..], cs);
    }
  }

  /** Removing every code that occurs leaves nothing. */
  lemma {:induction false} WithoutCodesAllListed(s: seq<Record>, cs: seq<string>)
    requires forall i :: 0 <= i < |s| ==> s[i].code in cs
    ensures WithoutCodes(s, cs) == []
  {
    if s != [] {
      WithoutCodesAllListed(s[1..], cs);
    }
  }

  /** WithoutCodes only looks at whether each record's code is listed. */
  lemma {:induction false} WithoutCodesCongruent(s: seq<Record>, cs: seq<string>, ds: seq<string>)
    requires forall i :: 0 <= i < |s| ==> (s[i].code in cs <==> s[i].code in ds)
    ensures WithoutCodes(s, cs) == WithoutCodes(s, ds)
  {
    if s != [] {
      WithoutCodesCongruent(s[1..], cs, ds);
    }
  }

  /** Filtering by result and filtering by code commute. */
  lemma {:induction false} WithoutCodesWithResult(s: seq<Record>, cs: seq<string>, o: Result)
    ensures WithResult(WithoutCodes(s, cs), o) == WithoutCodes(WithResult(s, o), cs)
  {
    if s != [] {
      WithoutCodesWithResult(s[1..], cs, o);
      var head := if s[0].code in cs then [] else [s[0]];
      WithResultAppend(head, WithoutCodes(s[1..], cs), o);
      var kept := if s[0].result == o then [s[0]] else [];
      WithoutCodesAppend(kept, WithResult(s[1..], o), cs);
    }
  }

  /** Removing the codes of the records of w past the k-th leaves at most k records. */
  lemma {:induction false} WithoutLaterCodesBound(w: seq<Record>, k: nat)
    requires k <= |w|
    ensures |WithoutCodes(w, Codes(w)[k..])| <= k
  {
    var cs := Codes(w)[k..];
    if k == 0 {
      assert cs == Codes(w);
      WithoutCodesAllListed(w, cs);
    } else {
      assert cs == Codes(w[1..])[k - 1..];
      WithoutLaterCodesBound(w[1..], k - 1);
    }
  }

  /** A code in a list of codes taken from w is the code of a record of w. */
  lemma CodeOfSlice(w: seq<Record>, k: nat, c: string)
    requires k <= |w|
    requires c in Codes(w)[k..]
    ensures exists x :: x in w && x.code == c
  {
    var m :| 0 <= m < |w| - k && Codes(w)[k..][m] == c;
    assert w[k + m] in w;
  }

  lemma UniqueTail(s: seq<Record>)
    requires s != [] && UniqueCodes(s)
    ensures UniqueCodes(s[1..])
    ensures forall x :: x in s[1..] ==> x.code != s[0].code
  {
    forall x | x in s[1..]
      ensures x.code != s[0].code
    {
      var i :| 0 <= i < |s[1..]| && s[1..][i] == x;
      assert s[i + 1] == x;
    }
  }

  lemma UniqueCons(x: Record, r: seq<Record>)
    requires UniqueCodes(r)
    requires forall y :: y in r ==> y.code != x.code
    ensures UniqueCodes([x] + r)
  {
    var s := [x] + r;
    forall i, j | 0 <= i < j < |s|
      ensures s[i].code != s[j].code
    {
      assert s[j] == r[j - 1];
      if i > 0 {
        assert s[i] == r[i - 1];
      }
    }
  }

  /** Dropping records keeps the codes unique. */
  lemma {:induction false} WithoutCodesUnique(s: seq<Record>, cs: seq<string>)
    requires UniqueCodes(s)
    ensures UniqueCodes(WithoutCodes(s, cs))
  {
    if s != [] {
      UniqueTail(s);
      WithoutCodesUnique(s[1..], cs);
      if s[0].code !in cs {
        WithoutCodesMembers(s[1..], cs);
        UniqueCons(s[0], WithoutCodes(s[1..], cs));
      }
    }
  }

  /** With unique codes, the first record's code is not the code of any later winner. */
  lemma HeadNotLaterWinner(s: seq<Record>, j: nat)
    requires s != [] && UniqueCodes(s)
    requires j <= WinCount(s[1..])
    ensures s[0].code !in Codes(WithResult(s[1..], Win))[j..]
  {
    UniqueTail(s);
    WithResultMembers(s[1..], Win);
    if s[0].code in Codes(WithResult(s[1..], Win))[j..] {
      CodeOfSlice(WithResult(s[1..], Win), j, s[0].code);
      assert false;
    }
  }

  /** With unique codes, removing the codes of winners past the k-th is the reference cap. */
  lemma {:induction false} WithoutLaterWinners(s: seq<Record>, k: nat)
    requires UniqueCodes(s)
    requires k <= WinCount(s)
    ensures WithoutCodes(s, Codes(WithResult(s, Win))[k..]) == KeepFirstWinners(s, k)
  {
    if s != [] {
      var t := s[1..];
      UniqueTail(s);
      var wt := WithResult(t, Win);
      var cs := Codes(WithResult(s, Win))[k..];
      if s[0].result == Lose {
        assert WithResult(s, Win) == wt;
        HeadNotLaterWinner(s, k);
        WithoutLaterWinners(t, k);
        assert WithoutCodes(s, cs) == [s[0]] + WithoutCodes(t, cs);
      } else if k > 0 {
        assert WithResult(s, Win) == [s[0]] + wt;
        assert cs == Codes(wt)[k - 1..];
        HeadNotLaterWinner(s, k - 1);
        WithoutLaterWinners(t, k - 1);
        assert WithoutCodes(s, cs) == [s[0]] + WithoutCodes(t, cs);
      } else {
        assert WithResult(s, Win) == [s[0]] + wt;
        assert cs == [s[0].code] + Codes(wt);
        WithoutLaterWinners(t, 0);
        WithoutCodesCongruent(t, cs, Codes(wt)[0..]);
        assert WithoutCodes(s, cs) == WithoutCodes(t, cs);
      }
    }
  }

  /** A ledger with no more than k winners is its own reference cap. */
  lemma {:induction false} KeepAllWinners(s: seq<Record>, k: nat)
    requires WinCount(s) <= k
    ensures KeepFirstWinners(s, k) == s
  {
    if s != [] {
      var t := s[1..];
      assert s == [s[0]] + t;
      if s[0].result == Lose {
        assert WithResult(s, Win) == WithResult(t, Win);
        KeepAllWinners(t, k);
        assert KeepFirstWinners(s, k) == [s[0]] + KeepFirstWinners(t, k);
      } else {
        assert WithResult(s, Win) == [s[0]] + WithResult(t, Win);
        KeepAllWinners(t, k - 1);
        assert KeepFirstWinners(s, k) == [s[0]] + KeepFirstWinners(t, k - 1);
      }
    }
  }

  // ---------------------------------------------------------------------------
  // Properties of the reference cap and of the cap pass

  lemma PrefixCons(x: Record, w: seq<Record>, k: nat)
    requires k > 0
    ensures ([x] + w)[..Min(k, |w| + 1)] == [x] + w[..Min(k - 1, |w|)]
  {
    assert Min(k, |w| + 1) == 1 + Min(k - 1, |w|);
  }

  /** The reference cap keeps exactly the first min(k, winners) winners, in ledger order. */
  lemma {:induction false} KeepFirstWinnersWinners(s: seq<Record>, k: nat)
    ensures WithResult(KeepFirstWinners(s, k), Win) == WithResult(s, Win)[..Min(k, WinCount(s))]
  {
    if s != [] {
      var t := s[1..];
      var ws, wt := WithResult(s, Win), WithResult(t, Win);
      if s[0].result == Lose {
        var kt := KeepFirstWinners(t, k);
        KeepFirstWinnersWinners(t, k);
        assert KeepFirstWinners(s, k) == [s[0]] + kt;
        WithResultAppend([s[0]], kt, Win);
        assert WithResult([s[0]], Win) == [];
        assert ws == wt;
      } else if k > 0 {
        var kt := KeepFirstWinners(t, k - 1);
        KeepFirstWinnersWinners(t, k - 1);
        assert KeepFirstWinners(s, k) == [s[0]] + kt;
        WithResultAppend([s[0]], kt, Win);
        assert WithResult([s[0]], Win) == [s[0]];
        assert ws == [s[0]] + wt;
        PrefixCons(s[0], wt, k);
      } else {
        KeepFirstWinnersWinners(t, k);
        assert KeepFirstWinners(s, k) == KeepFirstWinners(t, k);
      }
    }
  }

  /** The reference cap keeps every losing record, in ledger order. */
  lemma {:induction false} KeepFirstWinnersLosers(s: seq<Record>, k: nat)
    ensures WithResult(KeepFirstWinners(s, k), Lose) == WithResult(s, Lose)
  {
    if s != [] {
      var t := s[1..];
      var k' := if s[0].result == Win && k > 0 then k - 1 else k;
      KeepFirstWinnersLosers(t, k');
      if s[0].result == Lose || k > 0 {
        WithResultAppend([s[0]], KeepFirstWinners(t, k'), Lose);
      }
    }
  }

  /** Whatever the ledger holds, the cap pass leaves at most MAX_WINNERS winners. */
  lemma CapBound(s: seq<Record>)
    ensures WinCount(CapWinners(s)) <= MAX_WINNERS
  {
    var w := WithResult(s, Win);
    if |w| > MAX_WINNERS {
      var cs := Codes(w)[MAX_WINNERS..];
      WithoutCodesWithResult(s, cs, Win);
      WithoutLaterCodesBound(w, MAX_WINNERS);
    }
  }

  /**
   * With unique codes the cap pass is the reference cap: the first
   * MAX_WINNERS winners in ledger order survive together with every losing
   * record, and the number of winners becomes min(winners, MAX_WINNERS).
   */
  lemma CapKeepsFirstWinners(s: seq<Record>)
    requires UniqueCodes(s)
    ensures CapWinners(s) == KeepFirstWinners(s, MAX_WINNERS)
    ensures WinCount(CapWinners(s)) == Min(WinCount(s), MAX_WINNERS)
    ensures WithResult(CapWinners(s), Win) == WithResult(s, Win)[..Min(WinCount(s), MAX_WINNERS)]
    ensures WithResult(CapWinners(s), Lose) == WithResult(s, Lose)
  {
    if WinCount(s) > MAX_WINNERS {
      WithoutLaterWinners(s, MAX_WINNERS);
    } else {
      KeepAllWinners(s, MAX_WINNERS);
    }
    KeepFirstWinnersWinners(s, MAX_WINNERS);
    KeepFirstWinnersLosers(s, MAX_WINNERS);
  }

  // ---------------------------------------------------------------------------
  // Properties of an accepted submission

  /**
   * A losing submission, or a winning one while fewer than MAX_WINNERS
   * winners exist, only appends the new record.
   */
  lemma SubmitAppends(s: seq<Record>, code: string, o: Result)
    requires WinCount(s) <= MAX_WINNERS
    requires o == Lose || WinCount(s) < MAX_WINNERS
    ensures AfterSubmit(s, code, o) == s + [Record(code, o)]
    ensures Participated(AfterSubmit(s, code, o), code)
  {
    WithResultAppend(s, [Record(code, o)], Win);
    assert (s + [Record(code, o)])[|s|].code == code;
  }

  /**
   * A winning submission for a new code when MAX_WINNERS winners already
   * exist is dropped again by the cap pass: the ledger is as before and
   * the code reads as not having participated.
   */
  lemma SubmitPastCapDropsNew(s: seq<Record>, code: string)
    requires !Participated(s, code)
    requires WinCount(s) == MAX_WINNERS
    ensures AfterSubmit(s, code, Win) == s
    ensures !Participated(AfterSubmit(s, code, Win), code)
  {
    var x := Record(code, Win);
    WithResultAppend(s, [x], Win);
    var w := WithResult(s + [x], Win);
    assert |w| == MAX_WINNERS + 1 && w[MAX_WINNERS] == x;
    var cs := Codes(w)[MAX_WINNERS..];
    assert cs == [code];
    WithoutCodesAppend(s, [x], cs);
    assert WithoutCodes([x], cs) == [];
    WithoutAbsentCodes(s, cs);
    assert CapWinners(s + [x]) == WithoutCodes(s + [x], cs);
  }

  /** An accepted submission keeps codes unique and the winners within the cap. */
  lemma SubmitKeepsInvariant(s: seq<Record>, code: string, o: Result)
    requires UniqueCodes(s)
    requires !Participated(s, code)
    ensures UniqueCodes(AfterSubmit(s, code, o))
    ensures WinCount(AfterSubmit(s, code, o)) <= MAX_WINNERS
  {
    var s' := s + [Record(code, o)];
    assert UniqueCodes(s') by {
      forall i, j | 0 <= i < j < |s'|
        ensures s'[i].code != s'[j].code
      {
        if j == |s| {
          assert s[i] == s'[i];
        }
      }
    }
    var w := WithResult(s', Win);
    if |w| > MAX_WINNERS {
      WithoutCodesUnique(s', Codes(w)[MAX_WINNERS..]);
    }
    CapBound(s');
  }

  // ---------------------------------------------------------------------------
  // The server's state and its two handlers

  class ContestServer {
    /** The in-memory ledger. */
    var participants: seq<Record>
    /** The ledger as last written to the results workbook. */
    var saved: seq<Record>

    /** The in-memory ledger is the one last written to the workbook. */
    ghost predicate Synced()
      reads this
    {
      saved == participants
    }

    /** What every accepted submission maintains. */
    ghost predicate Valid()
      reads this
    {
      UniqueCodes(participants) && WinCount(participants) <= MAX_WINNERS
    }

    /**
     * Start-up: load the stored ledger when the workbook exists; otherwise
     * create an empty one.
     */
    constructor (stored: Option<seq<Record>>)
      ensures participants == (if stored.Some? then stored.value else [])
      ensures Synced()
    {
      participants := if stored.Some? then stored.value else [];
      saved := participants;
    }

    /** The participation query: refuses a missing code, else reports whether it is recorded. */
    function HasParticipated(code: Option<string>): (r: Response<bool>)
      reads this
      ensures r.Err? <==> Missing(code)
      ensures r.Err? ==> r.error == CodeRequired
      ensures r.Ok? ==> (r.value <==> Participated(participants, code.value))
    {
      if Missing(code) then Err(CodeRequired)
      else Ok(AnyWithCode(participants, code.value))
    }

    /**
     * The submission: refuses a missing or already recorded code; otherwise
     * records the drawn outcome, applies the winner cap, saves, and reports
     * the outcome (even when the cap pass dropped the new record again).
     */
    method Submit(code: Option<string>, outcome: Result) returns (r: Response<Result>)
      modifies this
      ensures Missing(code) ==> r == Err(CodeRequired)
      ensures !Missing(code) && Participated(old(participants), code.value) ==> r == Err(CodeAlreadyUsed)
      ensures r.Ok? <==> !Missing(code) && !Participated(old(participants), code.value)
      ensures r.Err? ==> participants == old(participants) && saved == old(saved)
      ensures r.Ok? ==>
        && !Missing(code)
        && !Participated(old(participants), code.value)
        && r.value == outcome
        && participants == AfterSubmit(old(participants), code.value, outcome)
        && saved == participants
      ensures old(Synced()) ==> Synced()
      ensures old(Valid()) ==> Valid()
    {
      if Missing(code) {
        return Err(CodeRequired);
      }
      var c := code.value;
      var existing := FindByCode(participants, c);
      if existing.Some? {
        return Err(CodeAlreadyUsed);
      }
      ghost var before := participants;
      participants := participants + [Record(c, outcome)];
      var winners := WithResult(participants, Win);
      if |winners| > MAX_WINNERS {
        var codesToRemove := Codes(winners)[MAX_WINNERS..];
        participants := WithoutCodes(participants, codesToRemove);
      }
      saved := participants;
      if UniqueCodes(before) && WinCount(before) <= MAX_WINNERS {
        SubmitKeepsInvariant(before, c, outcome);
      }
      r := Ok(outcome);
    }
  }

  /**
   * A restart: a fresh server loads the workbook, which is taken to read back
   * exactly the rows last written. Every participation answer is unchanged.
   */
  method Restart(running: ContestServer) returns (restarted: ContestServer)
    requires running.Synced()
    ensures fresh(restarted) && restarted.Synced()
    ensures restarted.participants == running.participants
    ensures forall code :: restarted.HasParticipated(code) == running.HasParticipated(code)
  {
    restarted := new ContestServer(Some(running.saved));
  }
}
