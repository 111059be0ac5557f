/** Waiting for the file system to be unlocked: Common/Database/SQLite/FileSystemGuard.swift. Its blocks run one
    at a time on a serial queue, so every interleaving of callers is some sequence of blocks. */
module FileSystemGuard {
  import opened Sequences

  /** A semaphore, by identity. */
  type Semaphore = nat

  datatype Block = Add(semaphore: Semaphore) | Unlock | Lock

  /** A signal, with the access flag at the moment it was sent. */
  datatype Signal = Signal(semaphore: Semaphore, hasAccess: bool)

  datatype GuardState = GuardState(hasAccess: bool, stored: seq<Semaphore>, signals: seq<Signal>)

  const INITIAL := GuardState(true, [], [])

  function Signals(semaphores: seq<Semaphore>): seq<Signal> {
    seq(|semaphores|, i requires 0 <= i < |semaphores| => Signal(semaphores[i], true))
  }

  function Step(s: GuardState, block: Block): GuardState {
    match block
    case Add(semaphore) =>
      if s.hasAccess then s.(signals := s.signals + [Signal(semaphore, true)])
      else s.(stored := s.stored + [semaphore])
    case Unlock => GuardState(true, [], s.signals + Signals(s.stored))
    case Lock => s.(hasAccess := false)
  }

  function Run(blocks: seq<Block>): GuardState {
    if blocks == [] then INITIAL else Step(Run(blocks[..|blocks| - 1]), blocks[|blocks| - 1])
  }

  class Guard {
    var hasAccess: bool
    var semaphores: seq<Semaphore>
    /** Every signal sent so far. */
    ghost var signals: seq<Signal>

    ghost function State(): GuardState
      reads this
    {
      GuardState(hasAccess, semaphores, signals)
    }

    constructor ()
      ensures State() == INITIAL
    {
      hasAccess, semaphores, signals := true, [], [];
    }

    method CheckSemaphore(semaphore: Semaphore) returns (access: bool)
      modifies this`signals
      ensures access == hasAccess
      ensures signals == old(signals) + if hasAccess then [Signal(semaphore, hasAccess)] else []
    {
      if hasAccess {
        signals := signals + [Signal(semaphore, hasAccess)];
      }
      return hasAccess;
    }

    /** The block of `addUnlockSemaphore`. */
    method AddUnlockSemaphore(semaphore: Semaphore)
      modifies this
      ensures State() == Step(old(State()), Add(semaphore))
    {
      var access := CheckSemaphore(semaphore);
      if !access {
        semaphores := semaphores + [semaphore];
      }
    }

    /** The block of `didUnlock`: stored semaphores are signalled from the front until none is left. */
    method DidUnlock()
      modifies this
      ensures State() == Step(old(State()), Unlock)
    {
      hasAccess := true;
      ghost var n := 0;
      while semaphores != []
        invariant hasAccess && n <= |old(semaphores)|
        invariant semaphores == old(semaphores)[n..]
        invariant signals == old(signals) + Signals(old(semaphores)[..n])
        decreases |semaphores|
      {
        var first := semaphores[0];
        semaphores := semaphores[1..];
        var access := CheckSemaphore(first);
        assert Signals(old(semaphores)[..n + 1]) == Signals(old(semaphores)[..n]) + [Signal(first, true)];
        n := n + 1;
      }
      assert old(semaphores)[..n] == old(semaphores);
    }

    method DidLock()
      modifies this
      ensures State() == Step(old(State()), Lock)
    {
      hasAccess := false;
    }
  }

  // ----- Over every run -----

  /** The semaphores added by a sequence of blocks, in order. */
  function Added(blocks: seq<Block>): seq<Semaphore> {
    if blocks == [] then []
    else
      var last := blocks[|blocks| - 1];
      Added(blocks[..|blocks| - 1]) + (if last.Add? then [last.semaphore] else [])
  }

  function Signalled(signals: seq<Signal>): seq<Semaphore> {
    seq(|signals|, i requires 0 <= i < |signals| => signals[i].semaphore)
  }

  /** After any run: with access nothing waits; the signalled semaphores followed by the stored ones are
      exactly those added, in order; and every signal was sent while access was held. */
  lemma {:induction false} RunFacts(blocks: seq<Block>)
    ensures var s := Run(blocks);
      && (s.hasAccess ==> s.stored == [])
      && Signalled(s.signals) + s.stored == Added(blocks)
      && forall i | 0 <= i < |s.signals| :: s.signals[i].hasAccess
  {
    if blocks != [] {
      var init, last := blocks[..|blocks| - 1], blocks[|blocks| - 1];
      RunFacts(init);
      var before := Run(init);
      match last {
        case Add(semaphore) =>
          assert Signalled(before.signals + [Signal(semaphore, true)]) == Signalled(before.signals) + [semaphore];
        case Unlock =>
          assert Signalled(before.signals + Signals(before.stored)) == Signalled(before.signals) + before.stored;
        case Lock =>
      }
    }
  }

  /** Distinct semaphores are signalled at most once each, and none both signalled and waiting. */
  lemma SignalledAtMostOnce(blocks: seq<Block>)
    requires Distinct(Added(blocks))
    ensures var s := Run(blocks);
      && Distinct(Signalled(s.signals))
      && forall x | x in s.stored :: x !in Signalled(s.signals)
  {
    RunFacts(blocks);
    var s := Run(blocks);
    var all := Signalled(s.signals) + s.stored;
    assert forall i | 0 <= i < |s.signals| :: all[i] == Signalled(s.signals)[i];
    forall x | x in s.stored ensures x !in Signalled(s.signals) {
      var k :| 0 <= k < |s.stored| && s.stored[k] == x;
      assert all[|s.signals| + k] == x;
    }
  }

  lemma {:induction false} AddedPrefix(blocks: seq<Block>, i: nat)
    requires i <= |blocks|
    ensures Added(blocks[..i]) <= Added(blocks)
    decreases |blocks|
  {
    if i == |blocks| {
      assert blocks[..i] == blocks;
    } else {
      var init := blocks[..|blocks| - 1];
      AddedPrefix(init, i);
      assert init[..i] == blocks[..i];
    }
  }

  /** A lock came, and no unlock after it. */
  predicate Locked(blocks: seq<Block>) {
    exists i | 0 <= i < |blocks| :: IsLastLock(blocks, i)
  }

  predicate IsLastLock(blocks: seq<Block>, i: nat)
    requires i < |blocks|
  {
    blocks[i].Lock? && forall j | i < j < |blocks| :: !blocks[j].Unlock?
  }

  /** There is no access exactly when the last of the locks and unlocks, if any, is a lock. */
  lemma {:induction false} NoAccessIffLocked(blocks: seq<Block>)
    ensures !Run(blocks).hasAccess <==> Locked(blocks)
  {
    if blocks != [] {
      var n := |blocks| - 1;
      var init := blocks[..n];
      NoAccessIffLocked(init);
      if blocks[n].Lock? {
        assert IsLastLock(blocks, n);
      } else if Locked(init) && !blocks[n].Unlock? {
        var i :| 0 <= i < n && IsLastLock(init, i);
        assert IsLastLock(blocks, i);
      } else if Locked(blocks) {
        var i :| 0 <= i < |blocks| && IsLastLock(blocks, i);
        assert i < n && IsLastLock(init, i);
      }
    }
  }

  /** Access was held at some point from the i-th block on. */
  predicate AccessSince(blocks: seq<Block>, i: nat)
    requires i < |blocks|
  {
    exists j | i < j <= |blocks| :: Run(blocks[..j]).hasAccess
  }

  /** The i-th block came while nothing was locked, or an unlock came after it. */
  predicate UnlockedSince(blocks: seq<Block>, i: nat)
    requires i < |blocks|
  {
    !Locked(blocks[..i]) || exists j | i < j < |blocks| :: blocks[j].Unlock?
  }

  lemma {:induction false} AccessIffUnlocked(blocks: seq<Block>, i: nat)
    requires i < |blocks| && blocks[i].Add?
    ensures AccessSince(blocks, i) <==> UnlockedSince(blocks, i)
  {
    hide Locked, Run;
    AddKeepsAccess(blocks, i);
    NoAccessIffLocked(blocks[..i]);
    if AccessSince(blocks, i) {
      var j :| i < j <= |blocks| && Run(blocks[..j]).hasAccess;
      AccessNeedsUnlock(blocks, i, j);
    }
    if UnlockedSince(blocks, i) && Locked(blocks[..i]) {
      var j :| i < j < |blocks| && blocks[j].Unlock?;
      UnlockGivesAccess(blocks, j);
    }
  }

  lemma AddKeepsAccess(blocks: seq<Block>, i: nat)
    requires i < |blocks| && blocks[i].Add?
    ensures Run(blocks[..i + 1]).hasAccess <==> Run(blocks[..i]).hasAccess
  {
    assert blocks[..i + 1][..i] == blocks[..i];
  }

  lemma UnlockGivesAccess(blocks: seq<Block>, j: nat)
    requires j < |blocks| && blocks[j].Unlock?
    ensures Run(blocks[..j + 1]).hasAccess
  {}

  lemma {:induction false} AccessNeedsUnlock(blocks: seq<Block>, i: nat, j: nat)
    requires i < j <= |blocks| && blocks[i].Add? && Run(blocks[..j]).hasAccess
    ensures Run(blocks[..i]).hasAccess || exists k | i < k < |blocks| :: blocks[k].Unlock?
    decreases j
  {
    assert blocks[..j][..j - 1] == blocks[..j - 1];
    if j > i + 1 && !blocks[j - 1].Unlock? {
      AccessNeedsUnlock(blocks, i, j - 1);
    }
  }

  /** A waiter whose semaphore was added by the i-th block has been signalled exactly when nothing was locked
      then or an unlock came since. */
  lemma SignalledIff(blocks: seq<Block>, i: nat)
    requires i < |blocks| && blocks[i].Add?
    ensures |Run(blocks).signals| > |Added(blocks[..i])| <==> UnlockedSince(blocks, i)
    ensures UnlockedSince(blocks, i) ==> Run(blocks).signals[|Added(blocks[..i])|].semaphore == blocks[i].semaphore
  {
    hide Run, Locked;
    SignalledIffAccess(blocks, i);
    AccessIffUnlocked(blocks, i);
    RunFacts(blocks);
    AddedPrefix(blocks, i + 1);
    assert blocks[..i + 1][..i] == blocks[..i];
    var k, s := |Added(blocks[..i])|, Run(blocks);
    if k < |s.signals| {
      assert Added(blocks)[k] == Signalled(s.signals)[k];
    }
  }

  lemma {:induction false} SignalledIffAccess(blocks: seq<Block>, i: nat)
    requires i < |blocks| && blocks[i].Add?
    ensures |Run(blocks).signals| > |Added(blocks[..i])| <==> AccessSince(blocks, i)
    decreases |blocks|
  {
    hide Run;
    RunFacts(blocks);
    var n := |blocks|;
    var init := blocks[..n - 1];
    assert blocks[..n] == blocks;
    AddedPrefix(blocks, i + 1);
    assert blocks[..i + 1][..i] == blocks[..i];
    assert |Added(blocks)| >= |Added(blocks[..i])| + 1;
    if Run(blocks).hasAccess {
      assert |Run(blocks).signals| == |Added(blocks)| by {
        assert Signalled(Run(blocks).signals) + [] == Signalled(Run(blocks).signals);
      }
    } else {
      NoAccessNoSignal(blocks);
      assert forall j | 0 <= j <= n - 1 :: init[..j] == blocks[..j];
      if i == n - 1 {
        RunFacts(init);
        assert blocks[..i] == init;
        assert |Run(init).signals| <= |Added(init)|;
      } else {
        SignalledIffAccess(init, i);
        if AccessSince(blocks, i) {
          var j :| i < j <= n && Run(blocks[..j]).hasAccess;
          assert Run(init[..j]).hasAccess;
        }
        if AccessSince(init, i) {
          var j :| i < j <= n - 1 && Run(init[..j]).hasAccess;
          assert Run(blocks[..j]).hasAccess;
        }
      }
    }
  }

  lemma NoAccessNoSignal(blocks: seq<Block>)
    requires blocks != [] && !Run(blocks).hasAccess
    ensures Run(blocks).signals == Run(blocks[..|blocks| - 1]).signals
  {}

  /** Locked, then asked to wait: nothing is signalled. Unlocked, it is. */
  lemma LockThenWait()
    ensures Run([Lock, Add(1)]) == GuardState(false, [1], [])
    ensures Run([Lock, Add(1), Unlock]) == GuardState(true, [], [Signal(1, true)])
  {
    assert [Lock, Add(1), Unlock][..2] == [Lock, Add(1)];
    assert [Lock, Add(1)][..1] == [Lock] && [Lock][..0] == [];
    assert Run([Lock]) == GuardState(false, [], []);
    assert Run([Lock, Add(1)]) == Step(Run([Lock]), Add(1));
  }
}
