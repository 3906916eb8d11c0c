/** The list of IPs: an array kept without gaps, in which a child is put just above its
  * parent and a death closes the gap, and the pass of the main loop over it. */
module IpLists {
  import opened Lahey
  import opened FungeSpace
  import opened Stacks
  import opened Ips
  import opened Worlds
  import S = Scheduler

  const ALLOCCHUNKSIZE := 256

  /** Moves slots index + 1 .. top one up, from the top down. */
  method ShiftUp(ips: array<InstructionPointer?>, index: nat, top: nat)
    requires index <= top && top + 1 < ips.Length
    modifies ips
    ensures forall k | 0 <= k < ips.Length ::
      ips[k] == if index + 1 < k <= top + 1 then old(ips[k - 1]) else old(ips[k])
  {
    var i := top + 1;
    while i > index + 1
      invariant index + 1 <= i <= top + 1
      invariant forall k | 0 <= k < ips.Length ::
        ips[k] == if i < k <= top + 1 then old(ips[k - 1]) else old(ips[k])
    {
      ips[i] := ips[i - 1];
      i := i - 1;
    }
  }

  /** Moves slots index + 1 .. top one down, from the bottom up. */
  method ShiftDown(ips: array<InstructionPointer?>, index: nat, top: nat)
    requires index <= top < ips.Length
    modifies ips
    ensures forall k | 0 <= k < ips.Length ::
      ips[k] == if index <= k < top then old(ips[k + 1]) else old(ips[k])
  {
    var i := index;
    while i < top
      invariant index <= i <= top
      invariant forall k | 0 <= k < ips.Length ::
        ips[k] == if index <= k < i then old(ips[k + 1]) else old(ips[k])
    {
      ips[i] := ips[i + 1];
      i := i + 1;
    }
  }

  /** Every IP of s and all its stacks lie in owned. */
  ghost predicate Members(s: seq<InstructionPointer>, owned: set<object>)
    reads owned
  {
    forall k | 0 <= k < |s| ::
      s[k] in owned && s[k].stackstack in owned && s[k].stackstack.Repr <= owned && s[k].stackstack.Valid()
  }

  /** No two IPs of s share storage, and none is part of the storage of stacks. */
  ghost predicate Apart(s: seq<InstructionPointer>, owned: set<object>)
    requires Members(s, owned)
    reads owned
  {
    && (forall j, k | 0 <= j < k < |s| :: s[j] != s[k] && s[j].stackstack.Repr !! s[k].stackstack.Repr)
    && (forall j, k | 0 <= j < |s| && 0 <= k < |s| :: s[j] !in s[k].stackstack.Repr)
  }

  lemma InsertMember(s: seq<InstructionPointer>, owned: set<object>, i: nat, c: InstructionPointer)
    requires i <= |s| && Members(s, owned) && Apart(s, owned)
    requires c !in owned + c.stackstack.Repr && c.stackstack.Repr !! owned && c.stackstack.Valid()
    ensures var all := owned + {c, c.stackstack} + c.stackstack.Repr;
      Members(Inserted(s, i, c), all) && Apart(Inserted(s, i, c), all)
  {
    var t := Inserted(s, i, c);
    forall k | 0 <= k < |t|
      ensures t[k] == if k < i then s[k] else if k == i then c else s[k - 1]
    {
    }
    var all := owned + {c, c.stackstack} + c.stackstack.Repr;
    assert Members(t, all);
    forall j, k | 0 <= j < |t| && 0 <= k < |t|
      ensures j < k ==> t[j] != t[k] && t[j].stackstack.Repr !! t[k].stackstack.Repr
      ensures t[j] !in t[k].stackstack.Repr
    {
    }
  }

  lemma RemoveMember(s: seq<InstructionPointer>, owned: set<object>, i: nat)
    requires i < |s| && Members(s, owned) && Apart(s, owned)
    ensures Members(Removed(s, i), owned) && Apart(Removed(s, i), owned)
  {
    var t := Removed(s, i);
    assert forall k | 0 <= k < |t| :: t[k] == if k < i then s[k] else s[k + 1];
  }

  /** The storage of the stacks of each IP. */
  ghost function Reprs(s: seq<InstructionPointer>): (r: seq<set<object>>)
    reads s`stackstack, (set ip | ip in s :: ip.stackstack)`Repr
    ensures |r| == |s| && forall k | 0 <= k < |s| :: r[k] == s[k].stackstack.Repr
  {
    if s == [] then [] else Reprs(s[..|s| - 1]) + [s[|s| - 1].stackstack.Repr]
  }

  lemma ReprsApart(s: seq<InstructionPointer>, owned: set<object>)
    requires Members(s, owned) && Apart(s, owned)
    ensures forall j, k | 0 <= j < k < |s| :: s[j] != s[k] && Reprs(s)[j] !! Reprs(s)[k]
    ensures forall j, k | 0 <= j < |s| && 0 <= k < |s| :: s[j] !in Reprs(s)[k]
    ensures forall k | 0 <= k < |s| :: s[k] in owned && Reprs(s)[k] <= owned
  {
    hide StackStack.Valid;
  }

  /** When the storage of one IP's stacks has grown by objects that no IP had before, the IPs
    * are still apart. */
  lemma StillApart(s: seq<InstructionPointer>, r: seq<set<object>>, was: set<object>, owned: set<object>,
                   ip: InstructionPointer, grown: set<object>)
    requires Members(s, owned) && |r| == |s| && grown !! was
    requires forall j, k | 0 <= j < k < |s| :: s[j] != s[k] && r[j] !! r[k]
    requires forall j, k | 0 <= j < |s| && 0 <= k < |s| :: s[j] !in r[k]
    requires forall k | 0 <= k < |s| :: s[k] in was && r[k] <= was
    requires forall k | 0 <= k < |s| :: s[k].stackstack.Repr == r[k] || (s[k] == ip && s[k].stackstack.Repr <= r[k] + grown)
    ensures Apart(s, owned)
  {
    hide StackStack.Valid, Members;
    forall j, k | 0 <= j < k < |s|
      ensures s[j].stackstack.Repr !! s[k].stackstack.Repr
    {
    }
  }

  /** The state of each IP. */
  ghost function SelvesOf(s: seq<InstructionPointer>): (r: seq<Self>)
    reads s, (set ip | ip in s :: ip.stackstack)`view
    ensures |r| == |s| && forall k | 0 <= k < |s| :: r[k] == s[k].Own()
  {
    if s == [] then [] else SelvesOf(s[..|s| - 1]) + [s[|s| - 1].Own()]
  }

  lemma {:induction false} SelvesInserted(s: seq<InstructionPointer>, i: nat, c: InstructionPointer)
    requires i <= |s|
    ensures SelvesOf(Inserted(s, i, c)) == Inserted(SelvesOf(s), i, c.Own())
  {
    hide InstructionPointer.Own, SelvesOf;
    var t := Inserted(s, i, c);
    assert forall k | 0 <= k < |t| :: t[k] == if k < i then s[k] else if k == i then c else s[k - 1];
  }

  lemma {:induction false} SelvesRemoved(s: seq<InstructionPointer>, i: nat)
    requires i < |s|
    ensures SelvesOf(Removed(s, i)) == Removed(SelvesOf(s), i)
  {
    hide InstructionPointer.Own, SelvesOf;
    var t := Removed(s, i);
    assert forall k | 0 <= k < |t| :: t[k] == if k < i then s[k] else s[k + 1];
  }

  /** A list of IDs after n splits of the IP just below slot i. */
  function WithChildren(ids: seq<nat>, i: nat, from: nat, n: nat): seq<nat>
    requires i <= |ids|
  {
    ids[..i] + S.Children(from, n) + ids[i..]
  }

  lemma FirstChild(ids: seq<nat>, i: nat, from: nat)
    requires i <= |ids|
    ensures WithChildren(ids, i, from, 0) == ids
  {
  }

  lemma OneMoreChild(ids: seq<nat>, i: nat, from: nat, n: nat)
    requires i <= |ids|
    ensures i <= |WithChildren(ids, i, from, n)|
    ensures Inserted<nat>(WithChildren(ids, i, from, n), i, from + n + 1) == WithChildren(ids, i, from, n + 1)
  {
  }

  /** IDs are unique and at most the highest. */
  ghost predicate NamedBy(s: seq<InstructionPointer>, ids: seq<nat>, highest: nat)
    reads s`id
  {
    && |ids| == |s| && S.Distinct(ids)
    && forall k | 0 <= k < |s| :: s[k].id == ids[k] && ids[k] <= highest
  }

  lemma InsertName(s: seq<InstructionPointer>, ids: seq<nat>, highest: nat, i: nat, c: InstructionPointer)
    requires i <= |s| && NamedBy(s, ids, highest) && c.id == highest + 1
    ensures i <= |ids| && NamedBy(Inserted(s, i, c), Inserted<nat>(ids, i, highest + 1), highest + 1)
  {
    hide S.Distinct;
    NewName(ids, highest, i);
    var t, n := Inserted(s, i, c), Inserted<nat>(ids, i, highest + 1);
    forall k | 0 <= k < |t|
      ensures t[k].id == n[k] <= highest + 1
    {
      assert t[k] == if k < i then s[k] else if k == i then c else s[k - 1];
      assert n[k] == if k < i then ids[k] else if k == i then highest + 1 else ids[k - 1];
    }
  }

  lemma NewName(ids: seq<nat>, highest: nat, i: nat)
    requires i <= |ids| && S.Distinct(ids) && forall k | 0 <= k < |ids| :: ids[k] <= highest
    ensures S.Distinct(Inserted<nat>(ids, i, highest + 1))
  {
    assert ids == ids[..i] + ids[i..];
    S.InsertDistinct(ids[..i], [highest + 1], ids[i..]);
  }

  class IpList {
    var ips: array<InstructionPointer?>
    var top: nat
    var highestID: nat
    ghost var list: seq<InstructionPointer>
    ghost var ids: seq<nat>
    ghost var owned: set<object>

    ghost predicate Valid()
      reads this, ips, owned
    {
      && this !in owned && ips !in owned
      && Stored() && Members(list, owned) && Apart(list, owned) && Named()
    }

    /** The list and the space its IPs move in are sound and share no storage. */
    ghost predicate Ready(space: Space)
      reads this, ips, owned, space.Repr()
    {
      Valid() && space.Valid() && space.Repr() !! owned + {this, ips}
    }

    /** The array holds the list from slot 0 on, and has room for it. */
    ghost predicate Stored()
      reads this`list, this`top, this`ips, ips
    {
      && |list| == top + 1 <= ips.Length
      && forall k | 0 <= k <= top :: ips[k] == list[k]
    }

    ghost predicate Named()
      reads this`list, this`ids, this`highestID, list`id
    {
      NamedBy(list, ids, highestID)
    }

    /** The state of each IP, from the bottom of the list up. */
    ghost function Selves(): seq<Self>
      reads this`list, list, (set ip | ip in list :: ip.stackstack)`view
    {
      SelvesOf(list)
    }

    constructor ()
      ensures Valid() && fresh(owned) && fresh(ips)
      ensures ids == [0] && highestID == 0
      ensures Selves() == [Self(Vector(0, 0), Vector(1, 0), Vector(0, 0), [[]], true)]
    {
      var first := new InstructionPointer();
      ips := new InstructionPointer?[ALLOCCHUNKSIZE](i => if i == 0 then first else null);
      top, highestID := 0, 0;
      list, ids := [first], [0];
      owned := {first, first.stackstack} + first.stackstack.Repr;
    }

    /** The growth of iplist_duplicate_ip. */
    method Reserve(ghost space: Space)
      requires Ready(space)
      modifies this`ips
      ensures Ready(space) && top + 1 < ips.Length && Selves() == old(Selves())
      ensures ips == old(ips) || fresh(ips)
    {
      hide Members, Apart, Named, Space.Valid, SelvesOf;
      if ips.Length <= top + 1 {
        var bigger := new InstructionPointer?[ips.Length + ALLOCCHUNKSIZE];
        forall i | 0 <= i < ips.Length { bigger[i] := ips[i]; }
        ips := bigger;
      }
    }

    /** What belongs to an IP is apart from the list and the space. */
    ghost predicate Separate(child: InstructionPointer, space: Space)
      reads this`owned, this`ips, child`stackstack, child.stackstack`Repr
    {
      && child !in owned + child.stackstack.Repr && child.stackstack.Repr !! owned
      && {this, ips} + space.Repr() !! {child, child.stackstack} + child.stackstack.Repr
    }

    /** Puts a new member into slot index + 1. */
    method InsertAbove(index: nat, child: InstructionPointer, ghost space: Space)
      requires Ready(space) && index <= top && top + 1 < ips.Length
      requires Separate(child, space) && child.stackstack.Valid() && child.id == highestID + 1
      modifies this, ips
      ensures Ready(space) && ips == old(ips) && top == old(top) + 1 && list == Inserted(old(list), index + 1, child)
      ensures ids == Inserted<nat>(old(ids), index + 1, highestID) && highestID == old(highestID) + 1
      ensures owned == old(owned) + {child, child.stackstack} + child.stackstack.Repr
      ensures Selves() == Inserted(old(Selves()), index + 1, child.Own())
    {
      hide Members, Apart, NamedBy, SelvesOf, InstructionPointer.Own, Space.Valid, StackStack.Valid;
      InsertMember(list, owned, index + 1, child);
      InsertName(list, ids, highestID, index + 1, child);
      PlaceAbove(index, child);
      highestID := highestID + 1;
      ids := Inserted(ids, index + 1, highestID);
      owned := owned + {child, child.stackstack} + child.stackstack.Repr;
    }

    method PlaceAbove(index: nat, child: InstructionPointer)
      requires Stored() && index <= top && top + 1 < ips.Length
      modifies this`top, this`list, ips
      ensures Stored() && list == Inserted(old(list), index + 1, child)
      ensures Selves() == Inserted(old(Selves()), index + 1, child.Own())
    {
      hide SelvesOf, InstructionPointer.Own;
      SelvesInserted(list, index + 1, child);
      if index != top {
        ShiftUp(ips, index, top);
      }
      ips[index + 1] := child;
      top := top + 1;
      list := Inserted(list, index + 1, child);
    }

    /** iplist_duplicate_ip: the child goes just above its parent, mirrored and one step on,
      * with copies of its stacks; the parent keeps its index. */
    method DuplicateIp(index: nat, space: Space) returns (next: nat)
      requires Ready(space) && index <= top
      modifies this, ips, space`box, space`boundsExact
      ensures Ready(space) && (forall o | o in owned :: o in old(owned) || fresh(o)) && (ips == old(ips) || fresh(ips))
      ensures next == index && |list| == top + 1 == |old(list)| + 1
      ensures list == Inserted(old(list), index + 1, list[index + 1]) && list[index] == old(list[index])
      ensures ids == Inserted<nat>(old(ids), index + 1, highestID) && highestID == old(highestID) + 1
      ensures fresh(list[index + 1]) && fresh(list[index + 1].stackstack.Repr)
      ensures Selves() == Inserted(old(Selves()), index + 1, Child(old(Selves())[index], space.box))
      ensures Settled(space) && (old(Settled(space)) ==> space.box == old(space.box))
    {
      hide Ready, Separate, Child, SelvesOf, Settled, InstructionPointer.Own, StackStack.Valid;
      Reserve(space);
      Slot(index, space);
      var child := NewChild(index, space);
      InsertAbove(index, child, space);
      Slot(index, space);
      return index;
    }

    method NewChild(index: nat, space: Space) returns (child: InstructionPointer)
      requires Ready(space) && index <= top
      modifies space`box, space`boundsExact
      ensures Ready(space) && Selves() == old(Selves()) && Separate(child, space)
      ensures fresh(child) && fresh(child.stackstack) && fresh(child.stackstack.Repr)
      ensures child.stackstack.Valid() && child.id == highestID + 1
      ensures index < |Selves()| && child.Own() == Child(Selves()[index], space.box)
      ensures Settled(space) && (old(Settled(space)) ==> space.box == old(space.box))
    {
      hide Apart, Named, Members, Stored, Space.Valid, StackStack.Valid, Forward, Settled, SelvesOf;
      Slot(index, space);
      var parent := ips[index];
      child := new InstructionPointer.Duplicate(parent);
      child.Reverse();
      child.Advance(space);
      child.id := highestID + 1;
    }

    /** iplist_terminate_ip: the gap closes, and the pass goes on from the slot below. */
    method TerminateIp(index: nat, ghost space: Space) returns (next: nat)
      requires Ready(space) && index <= top && 0 < top
      modifies this`top, this`list, this`ids, ips
      ensures Ready(space) && top == old(top) - 1 && list == Removed(old(list), index) && ids == Removed(old(ids), index)
      ensures Selves() == Removed(old(Selves()), index)
      ensures next == if index > 0 then index - 1 else 0
    {
      hide Members, Apart, S.Distinct, SelvesOf, InstructionPointer.Own, Space.Valid;
      SelvesRemoved(list, index);
      RemoveMember(list, owned, index);
      S.RemoveDistinct(ids, index);
      RemoveSlot(index);
      ids := Removed(ids, index);
      return if index > 0 then index - 1 else 0;
    }

    method RemoveSlot(index: nat)
      requires Stored() && index <= top && 0 < top
      modifies this`top, this`list, ips
      ensures Stored() && top == old(top) - 1 && list == Removed(old(list), index)
    {
      if index != top {
        ShiftDown(ips, index, top);
      }
      ips[top] := null;
      top := top - 1;
      list := Removed(list, index);
    }

    /** thread_forward for the IP in slot index, which touches no other. */
    method MoveOn(ip: InstructionPointer, ghost index: nat, space: Space)
      requires Ready(space) && index <= top && ip == list[index]
      modifies ip`position, ip`needMove, space`box, space`boundsExact
      ensures Ready(space) && ip.needMove
      ensures ip.position == if old(ip.needMove) then Forward(space.box, old(ip.position), ip.delta) else old(ip.position)
      ensures forall b | Serves(space, b) :: Selves() == old(Selves())[index := Moved(old(Selves())[index], b)]
      ensures old(Settled(space)) || !old(ip.needMove) ==>
        space.box == old(space.box) && space.boundsExact == old(space.boundsExact)
    {
      hide StackStack.Valid, Lahey.Forward, S.Distinct, Space.Valid, Settled, SelvesOf;
      ghost var was := Selves();
      ip.ThreadForward(space);
      forall k | 0 <= k < |list| && k != index
        ensures list[k].Own() == was[k]
      {
      }
      assert Selves() == was[index := Moved(was[index], space.box)];
    }

    /** `t`, or `k` repeating it: every child goes just above the parent, so the youngest is
      * lowest, each a copy of the parent turned around and one step on. */
    method SplitTimes(index: nat, times: nat, space: Space)
      requires Ready(space) && index <= top
      modifies this, ips, space`box, space`boundsExact
      ensures Ready(space) && (forall o | o in owned :: o in old(owned) || fresh(o)) && (ips == old(ips) || fresh(ips))
      ensures index <= top && |list| == top + 1 && list[index] == old(list[index])
      ensures highestID == old(highestID) + times
      ensures ids == WithChildren(old(ids), index + 1, old(highestID), times)
      ensures forall b | Serves(space, b) ::
        Selves() == Split(old(Selves()), index + 1, Child(old(Selves())[index], b), times)
      ensures old(Settled(space)) ==> Settled(space) && space.box == old(space.box)
    {
      hide Ready, Lahey.Forward, Inserted, WithChildren, StackStack.Valid, Split, Child, SelvesOf, Settled;
      Slot(index, space);
      var n: nat := 0;
      ghost var was, from, selves := ids, highestID, Selves();
      FirstChild(was, index + 1, from);
      SplitStarts(selves, index, Child(selves[index], space.box));
      while n < times
        invariant 0 <= n <= times && Ready(space) && index <= top && |list| == top + 1 && list[index] == old(list[index])
        invariant (forall o | o in owned :: o in old(owned) || fresh(o)) && (ips == old(ips) || fresh(ips))
        invariant highestID == from + n && index < |was| && ids == WithChildren(was, index + 1, from, n)
        invariant index < |selves| && Selves() == Split(selves, index + 1, Child(selves[index], space.box), n)
        invariant n > 0 || old(Settled(space)) ==> Settled(space)
        invariant old(Settled(space)) ==> space.box == old(space.box)
      {
        OneMoreChild(was, index + 1, from, n);
        SplitStarts(selves, index, Child(selves[index], space.box));
        var next := DuplicateIp(index, space);
        SplitStarts(selves, index, Child(selves[index], space.box));
        SplitGrows(selves, index, Child(selves[index], space.box), n);
        n := n + 1;
      }
      if times == 0 {
        forall b: Box { SplitStarts(selves, index, Child(selves[index], b)); }
      }
    }

    lemma Slot(k: nat, space: Space)
      requires Ready(space) && k <= top
      ensures |list| == |ids| == top + 1 <= ips.Length && ips[k] == list[k] && list[k].id == ids[k]
      ensures |Selves()| == |list| && Selves()[k] == list[k].Own() && Selves()[k].Sound()
      ensures list[k] in owned && list[k].stackstack in owned && list[k].stackstack.Valid()
      ensures list[k].stackstack.Repr <= owned && this !in owned && ips !in owned
    {
      hide SelvesOf;
      TopKnown(list[k].stackstack);
    }

    /** Marks an IP as not to move at the end of this turn. */
    method HoldBack(ip: InstructionPointer, ghost index: nat, ghost space: Space)
      requires Ready(space) && index <= top && ip == list[index]
      modifies ip`needMove
      ensures Ready(space) && !ip.needMove
      ensures Selves() == old(Selves())[index := old(Selves())[index].(needMove := false)]
    {
      hide StackStack.Valid, S.Distinct, Space.Valid, SelvesOf;
      ghost var was := Selves();
      ip.needMove := false;
      forall k | 0 <= k < |list| && k != index
        ensures list[k].Own() == was[k]
      {
      }
      assert Selves() == was[index := was[index].(needMove := false)];
    }

    /** `@` with other IPs left: the IP below is picked up but neither run nor moved. */
    method Terminate(index: nat, space: Space) returns (next: nat)
      requires Ready(space) && index <= top && 0 < top
      modifies this`top, this`list, this`ids, ips, owned, space`box, space`boundsExact
      ensures Ready(space) && next <= top
      ensures list == Removed(old(list), index) && ids == Removed(old(ids), index)
      ensures next == if index > 0 then index - 1 else 0
      ensures var rest := Removed(old(Selves()), index); Selves() == rest[next := rest[next].(needMove := true)]
      ensures space.box == old(space.box) && space.boundsExact == old(space.boundsExact)
    {
      hide Ready, SelvesOf, Settled, InstructionPointer.Own, Moved;
      next := TerminateIp(index, space);
      Slot(next, space);
      ghost var rest := Selves();
      HoldBack(ips[next], next, space);
      Slot(next, space);
      HeldBack(rest[next], space.box);
      MoveOn(ips[next], next, space);
    }

    lemma HeldBack(s: Self, box: Box)
      ensures Moved(s.(needMove := false), box) == s.(needMove := true)
    {
    }

    /** One effect of an instruction on the IP in slot index: only that IP and its stacks
      * change, and storage new to its stacks is new altogether. */
    method PerformOne(ip: InstructionPointer, ghost index: nat, effect: Effect, space: Space)
      requires Ready(space) && index <= top && ip == list[index]
      modifies this`owned, ip`position, ip`delta, ip`storageOffset, ip`needMove, ip.stackstack.Repr,
        space`box, space`boundsExact
      ensures Ready(space) && (forall o | o in owned :: o in old(owned) || fresh(o))
      ensures list == old(list) && ids == old(ids) && highestID == old(highestID) && top == old(top) && ips == old(ips)
      ensures old(Selves())[index].Sound()
      ensures Selves() == old(Selves())[index := Performed(old(Selves())[index], effect, space.box)]
      ensures old(Settled(space)) || !effect.Begins? ==>
        space.box == old(space.box) && space.boundsExact == old(space.boundsExact)
      ensures effect.Begins? ==> Settled(space)
    {
      hide Members, Apart, Named, Stored, Space.Valid, StackStack.Valid, Performed, SelvesOf, Settled, InstructionPointer.Own;
      Slot(index, space);
      PerformApart(ip, index, effect, space);
      owned := owned + ip.stackstack.Repr;
    }

    method PerformApart(ip: InstructionPointer, ghost index: nat, effect: Effect, space: Space)
      requires Ready(space) && index < |list| && ip == list[index]
      modifies ip`position, ip`delta, ip`storageOffset, ip`needMove, ip.stackstack.Repr, space`box, space`boundsExact
      ensures space.Valid() && Stored() && Named() && fresh(ip.stackstack.Repr - old(ip.stackstack.Repr))
      ensures Members(list, owned + ip.stackstack.Repr) && Apart(list, owned + ip.stackstack.Repr)
      ensures |Selves()| == |list| && old(Selves())[index].Sound()
      ensures Selves() == old(Selves())[index := Performed(old(Selves())[index], effect, space.box)]
      ensures old(Settled(space)) || !effect.Begins? ==>
        space.box == old(space.box) && space.boundsExact == old(space.boundsExact)
      ensures effect.Begins? ==> Settled(space)
    {
      hide StackStack.Valid, NamedBy, Space.Valid, Apart, Performed, SelvesOf, Settled;
      ReprsApart(list, owned);
      ghost var r, mine, selves := Reprs(list), ip.stackstack.Repr, Selves();
      NotOwn(list, owned, ip);
      ip.Perform(effect, space);
      StillApart(list, r, owned, owned + ip.stackstack.Repr, ip, ip.stackstack.Repr - mine);
      forall k | 0 <= k < |list| && k != index
        ensures list[k].Own() == selves[k]
      {
      }
      assert Selves() == selves[index := Performed(selves[index], effect, space.box)];
    }

    lemma NotOwn(s: seq<InstructionPointer>, owned: set<object>, ip: InstructionPointer)
      requires Members(s, owned) && Apart(s, owned) && ip in s
      ensures ip !in ip.stackstack.Repr && ip.stackstack.Valid()
    {
    }

    /** The effects of an instruction on the IP in slot index. */
    method PerformAll(index: nat, effects: seq<Effect>, space: Space)
      requires Ready(space) && index <= top
      modifies this`owned, owned, space`box, space`boundsExact
      ensures Ready(space) && (forall o | o in owned :: o in old(owned) || fresh(o))
      ensures list == old(list) && ids == old(ids) && highestID == old(highestID) && top == old(top) && ips == old(ips)
      ensures old(Selves())[index].Sound()
      ensures forall b | Serves(space, b) ::
        Selves() == old(Selves())[index := PerformedAll(old(Selves())[index], effects, b)]
      ensures old(Settled(space)) ==> Settled(space) && space.box == old(space.box)
    {
      hide Ready, SelvesOf, Settled, Performed, PerformedAll, InstructionPointer.Own, Self.Sound;
      Slot(index, space);
      var n := 0;
      ghost var selves := Selves();
      forall b: Box { NoEffects(selves[index], b); }
      while n < |effects|
        invariant n <= |effects| && Ready(space) && index < |selves| && selves[index].Sound()
        invariant forall o | o in owned :: o in old(owned) || fresh(o)
        invariant list == old(list) && ids == old(ids) && highestID == old(highestID) && top == old(top) && ips == old(ips)
        invariant forall b | Serves(space, b) ::
          Selves() == selves[index := PerformedAll(selves[index], effects[..n], b)]
        invariant old(Settled(space)) ==> Settled(space) && space.box == old(space.box)
      {
        Slot(index, space);
        PerformOne(ips[index], index, effects[n], space);
        forall b | Serves(space, b)
          ensures Selves() == selves[index := PerformedAll(selves[index], effects[..n + 1], b)]
        {
          OneMoreEffect(selves[index], effects[..n], effects[n], b);
          assert effects[..n + 1] == effects[..n] + [effects[n]];
          if !effects[n].Begins? {
            BoundsUnused(PerformedAll(selves[index], effects[..n], b), effects[n], b, space.box);
          }
        }
        n := n + 1;
      }
      assert effects[..n] == effects;
    }

    /** Executes one instruction of the IP in slot index, with what it does to that IP and to
      * the list, and then moves the IP the loop ends up at. */
    method Act(index: nat, instruction: Instruction, space: Space) returns (next: nat, exited: bool)
      requires Ready(space) && index <= top
      modifies this, ips, owned, space`box, space`boundsExact
      ensures Ready(space) && (forall o | o in owned :: o in old(owned) || fresh(o)) && (ips == old(ips) || fresh(ips))
      ensures !exited ==> next <= top
      ensures var t := S.Step(S.State(old(ids), old(highestID), index, false, []), instruction.outcome);
        && t.ids == ids && t.highest == highestID && t.exited == exited
        && (!exited ==> t.i == if instruction.outcome.ZeroTick? then next else next - 1)
      ensures old(Selves())[index].Sound()
      ensures forall b | Serves(space, b) :: Selves() == TurnTaken(old(Selves()), index, instruction, b)
      ensures old(Settled(space)) ==> Settled(space) && space.box == old(space.box)
    {
      hide Ready, S.Step, Finished, PerformedAll, SelvesOf, Settled, InstructionPointer.Own, Self.Sound;
      Slot(index, space);
      PerformAll(index, instruction.effects, space);
      Slot(index, space);
      next, exited := Finish(index, instruction.outcome, space);
    }

    /** What an instruction does to the list, and the move after it. */
    method Finish(index: nat, outcome: S.Outcome, space: Space) returns (next: nat, exited: bool)
      requires Ready(space) && index <= top
      modifies this, ips, owned, space`box, space`boundsExact
      ensures Ready(space) && (forall o | o in owned :: o in old(owned) || fresh(o)) && (ips == old(ips) || fresh(ips))
      ensures !exited ==> next <= top
      ensures var t := S.Step(S.State(old(ids), old(highestID), index, false, []), outcome);
        && t.ids == ids && t.highest == highestID && t.exited == exited
        && (!exited ==> t.i == if outcome.ZeroTick? then next else next - 1)
      ensures forall b | Serves(space, b) :: Selves() == Finished(old(Selves()), index, outcome, b)
      ensures old(Settled(space)) ==> Settled(space) && space.box == old(space.box)
    {
      hide Ready, S.Children, SelvesOf, Settled, InstructionPointer.Own, Moved, Split, Child;
      Slot(index, space);
      next, exited := index, false;
      match outcome
      case Tick =>
        MoveOn(ips[index], index, space);
      case ZeroTick =>
        MoveOn(ips[index], index, space);
      case Split(times) =>
        SplitTimes(index, times, space);
        Slot(index, space);
        MoveOn(ips[index], index, space);
      case Die =>
        if top == 0 {
          exited := true;
        } else {
          next := Terminate(index, space);
        }
    }

    ghost function StateAt(i: int, exited: bool, trace: seq<S.Event>): S.State
      reads this`ids, this`highestID
    {
      S.State(ids, highestID, i, exited, trace)
    }

    /** The main loop with its list of IPs. */
    ghost function WorldAt(i: int, exited: bool, trace: seq<S.Event>): World
      reads this`ids, this`highestID, this`list, list, (set ip | ip in list :: ip.stackstack)`view
    {
      World(StateAt(i, exited, trace), Selves())
    }

    lemma IsWhole(i: int, exited: bool, trace: seq<S.Event>, space: Space)
      requires Ready(space)
      ensures WorldAt(i, exited, trace).Whole() && S.UniqueIds(StateAt(i, exited, trace)) && |ids| == top + 1
    {
      hide SelvesOf, InstructionPointer.Own, S.Distinct, Self.Sound;
      assert NamedBy(list, ids, highestID);
      forall k | 0 <= k < |Selves()|
        ensures Selves()[k].Sound()
      {
        Slot(k, space);
      }
    }

    /** One round of the loop that makes up a pass. */
    method Turn(i: nat, instruction: Instruction, trace: seq<S.Event>, space: Space)
      returns (i': int, exited: bool, trace': seq<S.Event>)
      requires Ready(space) && i <= top
      modifies this, ips, owned, space`box, space`boundsExact
      ensures Ready(space) && (forall o | o in owned :: o in old(owned) || fresh(o)) && (ips == old(ips) || fresh(ips))
      ensures |ids| == top + 1 && -1 <= i' <= top
      ensures var w := old(WorldAt(i, false, trace)); w.Whole() && w.state.Running()
      ensures forall b | Serves(space, b) ::
        WorldAt(i', exited, trace') == Round(old(WorldAt(i, false, trace)), instruction, b)
      ensures old(Settled(space)) ==> Settled(space) && space.box == old(space.box)
    {
      hide Ready, S.Step, TurnTaken, Settled, SelvesOf, InstructionPointer.Own, Self.Sound, S.Distinct;
      Slot(i, space);
      IsWhole(i, false, trace, space);
      var outcome := instruction.outcome;
      trace' := trace + [S.Event(ips[i].id, outcome)];
      S.StepTraces(StateAt(i, false, trace), outcome);
      var next: int;
      next, exited := Act(i, instruction, space);
      i' := if exited then i else if outcome.ZeroTick? then next else next - 1;
      IsWhole(i', exited, trace', space);
      ExitsInPlace(old(StateAt(i, false, trace)), outcome);
    }

    lemma ExitsInPlace(s: S.State, o: S.Outcome)
      requires s.Running()
      ensures S.Step(s, o).exited ==> S.Step(s, o).i == s.i && S.Step(s, o).ids == s.ids
    {
    }

    /** One pass of the main loop, for a script of what the executed instructions turn out to
      * be and do to their IPs: the list of IPs, and the position, direction, storage offset
      * and stacks of each, go through exactly the rounds specified, and no two IPs come to
      * share storage. */
    method RunPass(script: seq<Instruction>, space: Space)
      returns (i: int, exited: bool, trace: seq<S.Event>)
      requires Ready(space)
      modifies this, ips, owned, space`box, space`boundsExact
      ensures Ready(space) && (forall o | o in owned :: o in old(owned) || fresh(o)) && (ips == old(ips) || fresh(ips))
      ensures old(WorldAt(-1, false, [])).Whole()
      ensures forall b | Serves(space, b) ::
        WorldAt(i, exited, trace) == Rounds(NextPass(old(WorldAt(-1, false, []))), script, b)
      ensures old(Settled(space)) ==> Settled(space) && space.box == old(space.box)
    {
      hide Ready, Settled, Selves, Round, Rounds, World.Whole;
      IsWhole(-1, false, [], space);
      i, exited, trace := top, false, [];
      ghost var start := NextPass(WorldAt(-1, false, []));
      IsWhole(i, exited, trace, space);
      var rest := script;
      while rest != [] && i >= 0 && !exited
        invariant Ready(space) && |ids| == top + 1 && -1 <= i <= top
        invariant (forall o | o in owned :: o in old(owned) || fresh(o)) && (ips == old(ips) || fresh(ips))
        invariant start.Whole() && WorldAt(i, exited, trace).Whole()
        invariant forall b | Serves(space, b) ::
          Rounds(WorldAt(i, exited, trace), rest, b) == Rounds(start, script, b)
        invariant old(Settled(space)) ==> Settled(space) && space.box == old(space.box)
      {
        ghost var w, box, settled := WorldAt(i, false, trace), space.box, Settled(space);
        i, exited, trace := Turn(i, rest[0], trace, space);
        IsWhole(i, exited, trace, space);
        forall b | Serves(space, b)
          ensures Rounds(WorldAt(i, exited, trace), rest[1..], b) == Rounds(start, script, b)
        {
          RoundsUnfold(w, rest, b);
        }
        rest := rest[1..];
      }
      forall b: Box { RoundsUnfold(WorldAt(i, exited, trace), rest, b); }
    }

    /** The main loop for any number of passes. */
    method RunPasses(scripts: seq<seq<Instruction>>, space: Space) returns (i: int, exited: bool, trace: seq<S.Event>)
      requires Ready(space)
      modifies this, ips, owned, space`box, space`boundsExact
      ensures Ready(space)
      ensures old(WorldAt(-1, false, [])).Whole()
      ensures forall b | Serves(space, b) ::
        WorldAt(i, exited, trace) == Passes(old(WorldAt(-1, false, [])), scripts, b)
    {
      hide Ready, Settled, Selves, Rounds, Passes, World.Whole, NextPass;
      IsWhole(-1, false, [], space);
      i, exited, trace := -1, false, [];
      ghost var start := WorldAt(i, exited, trace);
      var rest := scripts;
      while rest != [] && i < 0 && !exited
        invariant Ready(space)
        invariant (forall o | o in owned :: o in old(owned) || fresh(o)) && (ips == old(ips) || fresh(ips))
        invariant start.Whole() && WorldAt(i, exited, trace).Whole()
        invariant forall b | Serves(space, b) ::
          Passes(WorldAt(i, exited, trace), rest, b) == Passes(start, scripts, b)
      {
        ghost var w, box, settled := WorldAt(i, exited, trace), space.box, Settled(space);
        SamePass(w, WorldAt(-1, false, []));
        i, exited, trace := RunPass(rest[0], space);
        IsWhole(i, exited, trace, space);
        forall b | Serves(space, b)
          ensures Passes(WorldAt(i, exited, trace), rest[1..], b) == Passes(start, scripts, b)
        {
          PassesUnfold(w, rest, b);
        }
        rest := rest[1..];
      }
      forall b: Box { PassesUnfold(WorldAt(i, exited, trace), rest, b); }
    }

    /** A pass starts from the list alone. */
    lemma SamePass(v: World, w: World)
      requires v.state.ids == w.state.ids && v.state.highest == w.state.highest && v.selves == w.selves
      ensures NextPass(v) == NextPass(w)
    {
    }
  }
}
