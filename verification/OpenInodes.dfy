/** The list of open inodes. Opening a sector twice yields the same inode, so a sector number
    identifies an open inode as well as a pointer would. */
module OpenInodes {

  datatype Inode = Inode(sector: nat, openCnt: int, removed: bool, denyWriteCnt: int)

  type OpenList = seq<Inode>

  /** At most one inode per sector, with at least one opener and at most one denial per opener. */
  ghost predicate ListOk(t: OpenList) {
    && (forall i :: 0 <= i < |t| ==> t[i].openCnt >= 1 && 0 <= t[i].denyWriteCnt <= t[i].openCnt)
    && (forall i, j :: 0 <= i < j < |t| ==> t[i].sector != t[j].sector)
  }

  /** Where the inode of sector `s` is, or the length of the list. */
  function Find(t: OpenList, s: nat): (i: nat)
    ensures i <= |t| && (i < |t| ==> t[i].sector == s)
    ensures forall j :: 0 <= j < i ==> t[j].sector != s
  {
    if t == [] || t[0].sector == s then 0 else 1 + Find(t[1..], s)
  }

  predicate IsOpen(t: OpenList, s: nat) {
    Find(t, s) < |t|
  }

  function Get(t: OpenList, s: nat): Inode
    requires IsOpen(t, s)
  {
    t[Find(t, s)]
  }

  function Opened(t: OpenList, s: nat): OpenList {
    var i := Find(t, s);
    if i < |t| then t[i := t[i].(openCnt := t[i].openCnt + 1)] else [Inode(s, 1, false, 0)] + t
  }

  function Closed(t: OpenList, s: nat): OpenList
    requires IsOpen(t, s)
  {
    var i := Find(t, s);
    if t[i].openCnt == 1 then t[..i] + t[i + 1..] else t[i := t[i].(openCnt := t[i].openCnt - 1)]
  }

  lemma FindIs(t: OpenList, s: nat, i: nat)
    requires i < |t| && t[i].sector == s && forall j :: 0 <= j < i ==> t[j].sector != s
    ensures Find(t, s) == i
  {
  }

  lemma FindIsNot(t: OpenList, s: nat)
    requires forall j :: 0 <= j < |t| ==> t[j].sector != s
    ensures Find(t, s) == |t|
  {
  }

  lemma OpenedOk(t: OpenList, s: nat)
    requires ListOk(t)
    ensures ListOk(Opened(t, s)) && IsOpen(Opened(t, s), s)
    ensures Get(Opened(t, s), s).denyWriteCnt < Get(Opened(t, s), s).openCnt
  {
    var i, t' := Find(t, s), Opened(t, s);
    FindIs(t', s, if i < |t| then i else 0);
  }

  lemma ClosedOk(t: OpenList, s: nat)
    requires ListOk(t) && IsOpen(t, s) && Get(t, s).denyWriteCnt < Get(t, s).openCnt
    ensures ListOk(Closed(t, s))
    ensures IsOpen(Closed(t, s), s) <==> Get(t, s).openCnt > 1
  {
    var i, t' := Find(t, s), Closed(t, s);
    if t[i].openCnt > 1 {
      FindIs(t', s, i);
    } else {
      FindIsNot(t', s);
    }
  }

  /** Opening or closing one inode leaves the others open and unchanged. */
  lemma OthersUntouched(t: OpenList, s: nat, x: nat)
    requires ListOk(t) && x != s
    ensures IsOpen(Opened(t, s), x) == IsOpen(t, x)
    ensures IsOpen(t, x) ==> Get(Opened(t, s), x) == Get(t, x)
    ensures IsOpen(t, s) ==> IsOpen(Closed(t, s), x) == IsOpen(t, x)
    ensures IsOpen(t, s) && IsOpen(t, x) ==> Get(Closed(t, s), x) == Get(t, x)
  {
    OpenedElsewhere(t, s, x);
    if IsOpen(t, s) {
      ClosedElsewhere(t, s, x);
    }
  }

  lemma OpenedElsewhere(t: OpenList, s: nat, x: nat)
    requires x != s
    ensures IsOpen(Opened(t, s), x) == IsOpen(t, x)
    ensures IsOpen(t, x) ==> Get(Opened(t, s), x) == Get(t, x)
  {
    var i, k, t' := Find(t, s), Find(t, x), Opened(t, s);
    if k < |t| {
      FindIs(t', x, if i < |t| then k else k + 1);
    } else {
      FindIsNot(t', x);
    }
  }

  lemma ClosedElsewhere(t: OpenList, s: nat, x: nat)
    requires x != s && IsOpen(t, s)
    ensures IsOpen(Closed(t, s), x) == IsOpen(t, x)
    ensures IsOpen(t, x) ==> Get(Closed(t, s), x) == Get(t, x)
  {
    var i, k, t' := Find(t, s), Find(t, x), Closed(t, s);
    if k < |t| {
      FindIs(t', x, if t[i].openCnt == 1 && i < k then k - 1 else k);
    } else {
      FindIsNot(t', x);
    }
  }

  /** A close undoes an open. */
  lemma OpenThenClose(t: OpenList, s: nat)
    requires ListOk(t)
    ensures IsOpen(Opened(t, s), s) && Closed(Opened(t, s), s) == t
  {
    var i, t' := Find(t, s), Opened(t, s);
    FindIs(t', s, if i < |t| then i else 0);
    assert i == |t| ==> t'[..0] + t'[1..] == t;
  }

  /** The list with the inode of sector `s` marked as removed. */
  function Marked(t: OpenList, s: nat): OpenList
    requires IsOpen(t, s)
  {
    t[Find(t, s) := Get(t, s).(removed := true)]
  }

  /** Opening an inode, marking it removed and closing it marks it if others have it open, and
      otherwise makes its last close the close of a removed inode. */
  lemma OpenMarkClose(t: OpenList, s: nat)
    requires ListOk(t)
    ensures IsOpen(Opened(t, s), s) && IsOpen(Marked(Opened(t, s), s), s)
    ensures var i := Get(Marked(Opened(t, s), s), s);
            i.removed && i.denyWriteCnt < i.openCnt && (i.openCnt == 1 <==> !IsOpen(t, s))
    ensures Closed(Marked(Opened(t, s), s), s) == if IsOpen(t, s) then Marked(t, s) else t
  {
    var i := Find(t, s);
    var j := if i < |t| then i else 0;
    FindIs(Opened(t, s), s, j);
    FindIs(Marked(Opened(t, s), s), s, j);
  }

  lemma MarkedKeeps(t: OpenList, s: nat, x: nat)
    requires IsOpen(t, s)
    ensures IsOpen(Marked(t, s), x) == IsOpen(t, x)
  {
    if IsOpen(t, x) {
      FindIs(Marked(t, s), x, Find(t, x));
    } else {
      FindIsNot(Marked(t, s), x);
    }
  }

  class OpenTable {
    var inodes: OpenList

    ghost predicate Valid()
      reads this
    {
      ListOk(inodes)
    }

    constructor ()
      ensures Valid() && inodes == []
    {
      inodes := [];
    }

    /** The search loop of `inode_open`. */
    method Search(s: nat) returns (i: nat)
      ensures i == Find(inodes, s)
    {
      i := 0;
      while i < |inodes| && inodes[i].sector != s
        invariant i <= |inodes| && forall j :: 0 <= j < i ==> inodes[j].sector != s
      {
        i := i + 1;
      }
      if i < |inodes| {
        FindIs(inodes, s, i);
      } else {
        FindIsNot(inodes, s);
      }
    }

    /** `inode_open` and, for an inode that is open, `inode_reopen` */
    method Open(s: nat)
      requires Valid()
      modifies this
      ensures Valid() && inodes == Opened(old(inodes), s)
    {
      OpenedOk(inodes, s);
      var i := Search(s);
      if i < |inodes| {
        inodes := inodes[i := inodes[i].(openCnt := inodes[i].openCnt + 1)];
      } else {
        inodes := [Inode(s, 1, false, 0)] + inodes;
      }
    }

    /** The part of `inode_close` that concerns the list. */
    method Close(s: nat) returns (last: bool)
      requires Valid() && IsOpen(inodes, s) && Get(inodes, s).denyWriteCnt < Get(inodes, s).openCnt
      modifies this
      ensures Valid() && inodes == Closed(old(inodes), s)
      ensures last <==> old(Get(inodes, s).openCnt) == 1
    {
      ClosedOk(inodes, s);
      var i := Search(s);
      last := inodes[i].openCnt == 1;
      if last {
        inodes := inodes[..i] + inodes[i + 1..];
      } else {
        inodes := inodes[i := inodes[i].(openCnt := inodes[i].openCnt - 1)];
      }
    }

    /** `inode_remove` */
    method Remove(s: nat)
      requires Valid() && IsOpen(inodes, s)
      modifies this
      ensures Valid() && inodes == Marked(old(inodes), s)
    {
      var i := Search(s);
      inodes := inodes[i := inodes[i].(removed := true)];
    }

    /** `inode_deny_write`, at most once per opener */
    method DenyWrite(s: nat)
      requires Valid() && IsOpen(inodes, s) && Get(inodes, s).denyWriteCnt < Get(inodes, s).openCnt
      modifies this
      ensures Valid()
      ensures inodes == old(inodes)[Find(old(inodes), s) :=
                                      old(Get(inodes, s)).(denyWriteCnt := old(Get(inodes, s)).denyWriteCnt + 1)]
    {
      var i := Search(s);
      inodes := inodes[i := inodes[i].(denyWriteCnt := inodes[i].denyWriteCnt + 1)];
    }

    /** `inode_allow_write` */
    method AllowWrite(s: nat)
      requires Valid() && IsOpen(inodes, s) && Get(inodes, s).denyWriteCnt > 0
      modifies this
      ensures Valid()
      ensures inodes == old(inodes)[Find(old(inodes), s) :=
                                      old(Get(inodes, s)).(denyWriteCnt := old(Get(inodes, s)).denyWriteCnt - 1)]
    {
      var i := Search(s);
      inodes := inodes[i := inodes[i].(denyWriteCnt := inodes[i].denyWriteCnt - 1)];
    }
  }
}
