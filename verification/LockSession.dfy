/** The local part of an acquire loop, as the protocol has it: from a sorted listing to the decision. */
module LockSessionClass {
  import opened Wrappers
  import opened ReadWriteLock

  class LockSession {
    var selfNode: Node
    var allChildren: seq<Node>

    constructor (self: Node, listing: seq<Node>)
      ensures selfNode == self && allChildren == listing
    {
      selfNode, allChildren := self, listing;
    }

    /** The loop of a writer over the sorted children: the one in front of its own. */
    method predecessor() returns (t: Node)
      requires selfNode in allChildren && allChildren[0] != selfNode && selfNode.kind.Write?
      ensures Target(allChildren, selfNode) == Some(t)
    {
      var i := 0;
      while allChildren[i] != selfNode
        invariant 0 <= i < |allChildren| && i <= IndexOf(allChildren, selfNode)
        invariant selfNode !in allChildren[..i]
        decreases |allChildren| - i
      {
        i := i + 1;
        assert allChildren[..i] == allChildren[..i - 1] + [allChildren[i - 1]];
        assert i - 1 < IndexOf(allChildren, selfNode);
      }
      assert i == IndexOf(allChildren, selfNode);
      t := allChildren[i - 1];
    }

    /** The loop of a reader: the first writer before its own. */
    method writer() returns (isWriteLock: bool, t: Node)
      requires selfNode in allChildren && selfNode.kind.Read?
      ensures Target(allChildren, selfNode) == if isWriteLock then Some(t) else None
    {
      var i := 0;
      t := selfNode;
      while i < |allChildren|
        invariant 0 <= i <= |allChildren|
        invariant FirstWriter(allChildren, selfNode) == FirstWriter(allChildren[i..], selfNode)
      {
        if allChildren[i] == selfNode {
          return false, t;
        }
        if allChildren[i].kind.Write? {
          return true, allChildren[i];
        }
        i := i + 1;
        assert allChildren[i - 1..][1..] == allChildren[i..];
      }
      isWriteLock := false;
    }

    /** Whether the lock is taken, and otherwise whom to wait for: nobody who conflicts is in front if it is, and the
        awaited node is in front if not, in any listing that is sorted. */
    method decide(ord: Order) returns (waits: bool, t: Node)
      requires Sorted(ord, allChildren) && selfNode in allChildren
      ensures Target(allChildren, selfNode) == if waits then Some(t) else None
      ensures waits ==> t in allChildren && Before(ord, t, selfNode)
      ensures !waits ==> forall n :: n in allChildren ==> !Conflicts(ord, selfNode, n)
    {
      hide Target, Sorted;
      waits, t := true, selfNode;
      if allChildren[0] == selfNode {
        waits := false;
      } else if selfNode.kind.Write? {
        t := predecessor();
      } else {
        waits, t := writer();
      }
      assert Target(allChildren, selfNode) == if waits then Some(t) else None by {
        FirstTakes(allChildren, selfNode);
      }
      if waits {
        TargetIsBefore(ord, allChildren, selfNode);
      } else {
        forall n | n in allChildren ensures !Conflicts(ord, selfNode, n) {
          NoTargetNoConflict(ord, allChildren, selfNode, n);
        }
      }
    }
  }

  lemma FirstTakes(l: seq<Node>, me: Node)
    requires me in l
    ensures l[0] == me ==> Target(l, me) == None
  {
  }
}
