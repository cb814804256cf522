/** The acquire loops as they are coded, before the protocol they are meant to be. */
module LockAsCoded {
  import opened Wrappers
  import opened Decimal
  import opened ReadWriteLock

  /** What `zoo_get` returns. */
  datatype Got = NoNode | Ok | OtherCode

  /** What one turn of a loop gets to see: the sorted children, the result of `zoo_get`, and whether the flag it waits
      for is ever set. */
  datatype Round = Round(children: seq<string>, got: Got, woken: bool)

  datatype Ending = Acquired | Exits | Waits | StillRunning

  const NPOS := 0xFFFF_FFFF_FFFF_FFFF

  /** `std::string::find`. */
  function Find(text: string, part: string): (i: nat) {
    if part <= text then 0
    else if text == "" then NPOS
    else var i := Find(text[1..], part); if i == NPOS then NPOS else i + 1
  }

  /** `self_node_path.substr(m_lock_name.size(), ...)`. */
  function OwnName(lockName: string, child: string): string {
    (lockName + "/" + child)[|lockName|..]
  }

  /** The rest of a turn: an answer means exit, since the test of the result is negated. */
  function Later(r: Round, rest: Ending): Ending {
    match r.got
    case NoNode => rest
    case Ok => Exits
    case OtherCode => if r.woken then rest else Waits
  }

  function WriteEnding(self: string, rounds: seq<Round>): Ending {
    if rounds == [] then StillRunning
    else if rounds[0].children == [] then Exits
    else if rounds[0].children[0] == self then Acquired
    else Later(rounds[0], WriteEnding(self, rounds[1..]))
  }

  /** The scan of `lock_read`: a child in front of the own name for which `find("write_")` is not zero. */
  predicate Sees(self: string, children: seq<string>) {
    children != [] && children[0] != self && (Find(children[0], "write_") != 0 || Sees(self, children[1..]))
  }

  function ReadEnding(self: string, isWriteLock: bool, rounds: seq<Round>): Ending
    decreases |rounds|
  {
    if rounds == [] then StillRunning
    else if rounds[0].children == [] then Exits
    else if rounds[0].children[0] == self then Acquired
    else if !isWriteLock && !Sees(self, rounds[0].children) then Acquired
    else Later(rounds[0], ReadEnding(self, true, rounds[1..]))
  }

  class DistributedReadWriteLock {
    const lockName: string
    var isWriteLock: bool
    var minWriteNodePath: string
    var minReadNodePath: string
    var readLockNodeName: string
    var writeLockNodeName: string

    constructor (lockName: string)
      ensures this.lockName == "/" + lockName && !isWriteLock
    {
      this.lockName, isWriteLock := "/" + lockName, false;
      minWriteNodePath, minReadNodePath, readLockNodeName, writeLockNodeName := "", "", "", "";
    }

    method lock_write(child: string, rounds: seq<Round>) returns (ending: Ending)
      modifies this
      ensures ending == WriteEnding(OwnName(lockName, child), rounds)
      ensures ending.Acquired? ==> isWriteLock && writeLockNodeName == OwnName(lockName, child)
    {
      var self := OwnName(lockName, child);
      var turn := 0;
      while turn < |rounds|
        invariant 0 <= turn <= |rounds|
        invariant WriteEnding(self, rounds) == WriteEnding(self, rounds[turn..])
      {
        var r := rounds[turn];
        assert rounds[turn..][1..] == rounds[turn + 1..];
        turn := turn + 1;
        if r.children == [] {
          return Exits;
        }
        isWriteLock := true;
        if r.children[0] == self {
          writeLockNodeName := self;
          return Acquired;
        }
        var minNodePath := "";
        for i := 0 to |r.children| {
          if r.children[i] == self {
            minNodePath := lockName + "/" + r.children[i - 1];
            break;
          }
        }
        if r.got == NoNode {
          continue;
        }
        if r.got == Ok {
          return Exits;
        }
        minReadNodePath := minNodePath;
        if !r.woken {
          return Waits;
        }
      }
      return StillRunning;
    }

    method lock_read(child: string, rounds: seq<Round>) returns (ending: Ending)
      modifies this
      ensures ending == ReadEnding(OwnName(lockName, child), old(isWriteLock), rounds)
      ensures ending.Acquired? ==> readLockNodeName == OwnName(lockName, child)
    {
      var self := OwnName(lockName, child);
      var turn := 0;
      while turn < |rounds|
        invariant 0 <= turn <= |rounds|
        invariant ReadEnding(self, old(isWriteLock), rounds) == ReadEnding(self, isWriteLock, rounds[turn..])
      {
        var r := rounds[turn];
        assert rounds[turn..][1..] == rounds[turn + 1..];
        turn := turn + 1;
        if r.children == [] {
          return Exits;
        }
        if r.children[0] == self {
          readLockNodeName := self;
          return Acquired;
        }
        var minNodePath := "";
        var found := seen(self, r.children);
        if found.Some? {
          minNodePath := lockName + "/" + found.value;
          isWriteLock := true;
        }
        if !isWriteLock {
          readLockNodeName := self;
          return Acquired;
        }
        if r.got == NoNode {
          continue;
        }
        if r.got == Ok {
          return Exits;
        }
        minWriteNodePath := minNodePath;
        if !r.woken {
          return Waits;
        }
      }
      return StillRunning;
    }

    /** The inner loop of `lock_read`. */
    method seen(self: string, children: seq<string>) returns (found: Option<string>)
      ensures found.Some? <==> Sees(self, children)
      ensures found.Some? ==> found.value in children && Find(found.value, "write_") != 0
    {
      for i := 0 to |children|
        invariant Sees(self, children) <==> Sees(self, children[i..])
      {
        assert children[i..][1..] == children[i + 1..];
        if children[i] == self {
          return None;
        }
        if Find(children[i], "write_") != 0 {
          return Some(children[i]);
        }
      }
      return None;
    }
  }

  /** A turn after which the loop goes round: somebody else is first, and the awaited node is gone, or was not, and the
      session is woken. */
  predicate GoesRound(self: string, r: Round) {
    r.children != [] && r.children[0] != self && (r.got.NoNode? || (r.got.OtherCode? && r.woken))
  }

  /** A `lock_write` ends in its first turn that does not go round: with the lock exactly if its own name comes first,
      by waiting for ever exactly if nobody wakes it, and else by leaving the process. */
  lemma {:induction false} WriteEndsExactly(self: string, rounds: seq<Round>, k: nat)
    requires k <= |rounds| && forall j :: 0 <= j < k ==> GoesRound(self, rounds[j])
    requires k < |rounds| ==> !GoesRound(self, rounds[k])
    ensures var e := WriteEnding(self, rounds);
      && (e == StillRunning <==> k == |rounds|)
      && (e == Acquired <==> k < |rounds| && rounds[k].children != [] && rounds[k].children[0] == self)
      && (e == Waits <==> k < |rounds| && rounds[k].children != [] && rounds[k].children[0] != self
                          && rounds[k].got.OtherCode?)
    decreases k
  {
    if k > 0 {
      assert GoesRound(self, rounds[0]);
      forall j | 0 <= j < k - 1 ensures GoesRound(self, rounds[1..][j]) {
        assert rounds[1..][j] == rounds[j + 1];
      }
      WriteEndsExactly(self, rounds[1..], k - 1);
    }
  }

  /** What a reader needs besides to go round: the flag, which every turn leaves set, or a reader's node in front. */
  predicate ReaderGoesRound(self: string, isWriteLock: bool, r: Round) {
    GoesRound(self, r) && (isWriteLock || Sees(self, r.children))
  }

  /** And a `lock_read`: with the lock exactly if its own name comes first or it needs nothing to wait for. */
  lemma {:induction false} ReadEndsExactly(self: string, isWriteLock: bool, rounds: seq<Round>, k: nat)
    requires k <= |rounds| && forall j :: 0 <= j < k ==> ReaderGoesRound(self, isWriteLock || j > 0, rounds[j])
    requires k < |rounds| ==> !ReaderGoesRound(self, isWriteLock || k > 0, rounds[k])
    ensures var e := ReadEnding(self, isWriteLock, rounds);
      && (e == StillRunning <==> k == |rounds|)
      && (e == Acquired <==> k < |rounds| && rounds[k].children != []
                             && (rounds[k].children[0] == self
                                 || (!isWriteLock && k == 0 && !Sees(self, rounds[k].children))))
      && (e == Waits ==> k < |rounds| && rounds[k].got.OtherCode? && !rounds[k].woken)
    decreases k
  {
    if k > 0 {
      assert ReaderGoesRound(self, isWriteLock || 0 > 0, rounds[0]);
      forall j | 0 <= j < k - 1 ensures ReaderGoesRound(self, true, rounds[1..][j]) {
        assert rounds[1..][j] == rounds[j + 1] && ReaderGoesRound(self, isWriteLock || j + 1 > 0, rounds[j + 1]);
      }
      ReadEndsExactly(self, true, rounds[1..], k - 1);
    }
  }

  /** The names ZooKeeper lists have no slash. */
  predicate Plain(rounds: seq<Round>) {
    forall r, c :: r in rounds && c in r.children ==> '/' !in c
  }

  lemma OwnNameHasSlash(lockName: string, child: string)
    ensures '/' in OwnName(lockName, child)
  {
    assert OwnName(lockName, child)[0] == '/';
  }

  /** So no `lock_write` ever returns with the lock, whatever the children and whatever wakes it. */
  lemma {:induction false} WriteNeverAcquires(lockName: string, child: string, rounds: seq<Round>)
    requires Plain(rounds)
    ensures WriteEnding(OwnName(lockName, child), rounds) != Acquired
  {
    hide OwnName;
    OwnNameHasSlash(lockName, child);
    if rounds != [] {
      WriteNeverAcquires(lockName, child, rounds[1..]);
      assert rounds[0] in rounds;
      assert rounds[0].children != [] ==> rounds[0].children[0] in rounds[0].children;
    }
  }

  /** The test for a writer, `find("write_")` taken as a truth value, is true of the readers only. */
  lemma WriterTestIsInverted(n: Node)
    ensures Find(Name(n), "write_") != 0 <==> n.kind.Read?
  {
    hide Pad;
    var digits := Pad(n.id, SEQUENCE_WIDTH);
    if n.kind.Read? {
      assert Name(n)[0] == 'r';
    } else {
      assert Name(n) == "write_" + digits;
    }
  }

  lemma {:induction false} SeesExactly(self: string, children: seq<string>)
    requires self !in children
    ensures Sees(self, children) <==> exists c :: c in children && Find(c, "write_") != 0
  {
    hide Find;
    if children != [] {
      SeesExactly(self, children[1..]);
      assert children == [children[0]] + children[1..];
      if c :| c in children && Find(c, "write_") != 0 {
        assert c == children[0] || c in children[1..];
      }
      if Sees(self, children) && Find(children[0], "write_") == 0 {
        var c :| c in children[1..] && Find(c, "write_") != 0;
        assert c in children;
      }
    }
  }

  /** A `lock_read` takes the lock in a turn exactly if it has never seen a reader in a listing and sees none now:
      writers do not matter to it. */
  lemma ReadTurnExactly(lockName: string, child: string, isWriteLock: bool, r: Round)
    requires Plain([r]) && r.children != []
    ensures ReadEnding(OwnName(lockName, child), isWriteLock, [r]) == Acquired
            <==> !isWriteLock && forall c :: c in r.children ==> "write_" <= c
  {
    var self := OwnName(lockName, child);
    OwnNameHasSlash(lockName, child);
    hide OwnName;
    assert r in [r] && r.children[0] in r.children;
    assert forall c :: c in r.children ==> c != self;
    SeesExactly(self, r.children);
    forall c | c in r.children ensures Find(c, "write_") == 0 <==> "write_" <= c {
    }
  }

  /** The listing has the session's own node, as it does while the session lives. */
  predicate Fresh(n: Node, rounds: seq<Round>) {
    forall r :: r in rounds ==> Name(n) in r.children
  }

  /** So on fresh listings no `lock_read` ever returns with the lock either: it stands in its own way. */
  lemma {:induction false} ReadNeverAcquires(lockName: string, n: Node, isWriteLock: bool, rounds: seq<Round>)
    requires n.kind.Read? && Plain(rounds) && Fresh(n, rounds)
    ensures ReadEnding(OwnName(lockName, Name(n)), isWriteLock, rounds) != Acquired
    decreases |rounds|
  {
    hide Name, OwnName, Find;
    var self := OwnName(lockName, Name(n));
    OwnNameHasSlash(lockName, Name(n));
    if rounds != [] {
      var r := rounds[0];
      assert r in rounds && r.children[0] in r.children;
      assert forall c :: c in r.children ==> c != self;
      WriterTestIsInverted(n);
      SeesExactly(self, r.children);
      ReadNeverAcquires(lockName, n, true, rounds[1..]);
    }
  }
}
