/** The account of a file handle's seeks: which bytes were pushed back, and whether their memory is ever released. */
module SeekAccounts {
  import opened Arithmetic

  /** A read as the account sees it: past the end of the object, where nothing happens, or at an offset inside.
      There the request in flight is kept or abandoned, and the handle moves on to `to` unless the read fails. */
  datatype Visit = PastEnd | At(offset: nat, kept: bool, to: nat, failed: bool)

  /** Where a handle stands, since where it has read without starting over and how far, the bytes it has pushed back
      and not read again, and the bytes whose reservations were lost. */
  datatype Account = Account(inFlight: bool, runStart: nat, stand: nat, furthest: nat, pending: nat, lost: nat)

  const OPENED := Account(false, 0, 0, 0, 0, 0)

  /** A read of nothing, at or behind where the handle stands: it pushes bytes back and takes none. */
  predicate Retreats(a: Account, v: Visit) {
    v.At? && v.kept && !v.failed && v.to == v.offset <= a.stand
  }

  predicate Abandons(v: Visit) {
    v.At? && !v.kept
  }

  function After(a: Account, v: Visit): Account {
    match v
    case PastEnd => a
    case At(offset, kept, to, failed) =>
      var lost := a.lost + if kept then 0 else a.pending;
      if failed then Account(false, offset, offset, offset, 0, lost)
      else
        Account(true, if kept then a.runStart else offset, to, Max(if kept then a.furthest else offset, to),
                if Retreats(a, v) then a.pending + (a.stand - offset) else 0, lost)
  }

  /** The account after the first `n` visits. */
  function Ledger(visits: seq<Visit>, n: nat): Account
    requires n <= |visits|
    decreases n
  {
    if n == 0 then OPENED else After(Ledger(visits, n - 1), visits[n - 1])
  }

  /** When a request can be kept: only one in flight, backward only as far as the run of reads goes, and always for
      a sequential read or if the seek window has room for the whole run. */
  predicate CanBe(a: Account, v: Visit, window: nat) {
    v.At? ==>
      && (v.kept ==> a.inFlight)
      && (v.kept && v.offset <= a.stand ==> a.runStart <= v.offset)
      && (a.inFlight && v.offset == a.stand ==> v.kept)
      && (a.inFlight && a.runStart <= v.offset <= a.stand && a.furthest - a.runStart <= window ==> v.kept)
  }

  ghost predicate Plausible(visits: seq<Visit>, window: nat) {
    forall i | 0 <= i < |visits| :: CanBe(Ledger(visits, i), visits[i], window)
  }

  lemma {:induction false} LedgerAppend(visits: seq<Visit>, v: Visit, n: nat)
    requires n <= |visits|
    ensures Ledger(visits + [v], n) == Ledger(visits, n)
    decreases n
  {
    if n != 0 {
      LedgerAppend(visits, v, n - 1);
    }
  }

  lemma PlausibleAppend(visits: seq<Visit>, v: Visit, window: nat)
    requires Plausible(visits, window) && CanBe(Ledger(visits, |visits|), v, window)
    ensures Plausible(visits + [v], window)
    ensures Ledger(visits + [v], |visits| + 1) == After(Ledger(visits, |visits|), v)
  {
    hide CanBe, Ledger;
    forall i | 0 <= i <= |visits| ensures CanBe(Ledger(visits + [v], i), (visits + [v])[i], window) {
      LedgerAppend(visits, v, i);
    }
    LedgerStep(visits + [v], |visits| + 1);
    LedgerAppend(visits, v, |visits|);
  }

  lemma NoVisits(window: nat)
    ensures Plausible([], window) && Ledger([], 0) == OPENED
  {
  }

  lemma LedgerStep(visits: seq<Visit>, n: nat)
    requires 0 < n <= |visits|
    ensures Ledger(visits, n) == After(Ledger(visits, n - 1), visits[n - 1])
  {
  }

  // ----- When reservations are lost -----

  /** Visit `i` pushes bytes back. */
  predicate PushesBack(visits: seq<Visit>, i: nat) {
    i < |visits| && Retreats(Ledger(visits, i), visits[i]) && visits[i].offset < Ledger(visits, i).stand
  }

  /** Visit `k` neither reads what was pushed back nor abandons it. */
  predicate Quiet(visits: seq<Visit>, k: nat) {
    k < |visits| && (visits[k].PastEnd? || Retreats(Ledger(visits, k), visits[k]))
  }

  /** Before visit `n`, bytes that visit `i` pushed back have not been read again. */
  ghost predicate Outstanding(visits: seq<Visit>, i: nat, n: nat) {
    PushesBack(visits, i) && i < n && forall k | i < k < n :: Quiet(visits, k)
  }

  /** They are still outstanding when visit `n` abandons their request. */
  ghost predicate LeftBehind(visits: seq<Visit>, i: nat, n: nat) {
    n < |visits| && Abandons(visits[n]) && Outstanding(visits, i, n)
  }

  /** The bytes that visit `i` pushed back are left behind, by a later visit or by closing the handle. */
  ghost predicate Abandoned(visits: seq<Visit>, i: nat) {
    Outstanding(visits, i, |visits|) || exists n :: LeftBehind(visits, i, n)
  }

  lemma {:induction false} PendingIff(visits: seq<Visit>, n: nat)
    requires n <= |visits|
    ensures Ledger(visits, n).pending > 0 <==> exists i :: Outstanding(visits, i, n)
    decreases n
  {
    if n != 0 {
      PendingIff(visits, n - 1);
      if Outstanding(visits, n - 1, n) {
        assert PushesBack(visits, n - 1);
      } else if i :| Outstanding(visits, i, n) {
        assert Quiet(visits, n - 1) && Outstanding(visits, i, n - 1);
      }
      if Quiet(visits, n - 1) && Ledger(visits, n - 1).pending > 0 {
        var i :| Outstanding(visits, i, n - 1);
        assert Outstanding(visits, i, n);
      }
    }
  }

  lemma {:induction false} LostIff(visits: seq<Visit>, n: nat)
    requires n <= |visits|
    ensures Ledger(visits, n).lost > 0 <==> exists i: nat, j: nat :: j < n && LeftBehind(visits, i, j)
    decreases n
  {
    hide Outstanding;
    if n != 0 {
      LostIff(visits, n - 1);
      PendingIff(visits, n - 1);
      if Abandons(visits[n - 1]) && Ledger(visits, n - 1).pending > 0 {
        var i :| Outstanding(visits, i, n - 1);
        assert LeftBehind(visits, i, n - 1);
      }
    }
  }

  /** Memory stays reserved if and only if bytes were pushed back by a read of nothing and their request was then
      abandoned, or the handle closed, with nothing in between but reads past the end and further such reads. */
  lemma AccountIff(visits: seq<Visit>)
    ensures var a := Ledger(visits, |visits|); a.lost + a.pending == 0 <==> !exists i :: Abandoned(visits, i)
  {
    hide Ledger, Outstanding, LeftBehind;
    PendingIff(visits, |visits|);
    LostIff(visits, |visits|);
    AbandonedIff(visits);
  }

  lemma AbandonedIff(visits: seq<Visit>)
    ensures (exists i :: Abandoned(visits, i)) <==>
            (exists i: nat :: Outstanding(visits, i, |visits|))
            || (exists i: nat, j: nat :: j < |visits| && LeftBehind(visits, i, j))
  {
    hide Outstanding;
    if i: nat :| Outstanding(visits, i, |visits|) {
      assert Abandoned(visits, i);
    } else if i: nat, j: nat :| j < |visits| && LeftBehind(visits, i, j) {
      assert Abandoned(visits, i);
    }
  }

  /** Reads that all ask for something lose nothing. */
  lemma NonEmptyReadsLoseNothing(visits: seq<Visit>)
    requires forall i | 0 <= i < |visits| && visits[i].At? :: visits[i].failed || visits[i].offset < visits[i].to
    ensures Ledger(visits, |visits|).lost + Ledger(visits, |visits|).pending == 0
  {
    AccountIff(visits);
  }
}
