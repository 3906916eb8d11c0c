/** Funge stacks, which read as zeros below their bottom, and the stack of stacks that
  * `{`, `}` and `u` work on. */
module Stacks {
  import opened Lahey

  const ALLOCSIZE_STACK := 4096
  const ALLOCSIZE_STACKSTACK := 32

  function Zeros(n: nat): (z: seq<int>)
    ensures |z| == n && forall i | 0 <= i < n :: z[i] == 0
  {
    seq(n, _ => 0)
  }

  /** The top n items of a stack, in order, with zeros for those below its bottom. */
  function TopItems(s: seq<int>, n: nat): (t: seq<int>)
    ensures |t| == n
  {
    if n <= |s| then s[|s| - n..] else Zeros(n - |s|) + s
  }

  /** What is left when n items are taken off. */
  function Dropped(s: seq<int>, n: nat): seq<int> {
    if n <= |s| then s[..|s| - n] else []
  }

  function Popped(s: seq<int>): int {
    if s == [] then 0 else s[|s| - 1]
  }

  lemma AppendTop(a: seq<int>, b: seq<int>, n: nat)
    ensures n <= |b| ==> a + b[|b| - n..] == a + TopItems(b, n)
    ensures n > |b| ==> a + Zeros(n - |b|) + b[0..] == a + TopItems(b, n)
  {
    assert b[0..] == b;
  }

  lemma PopTwice(s: seq<int>)
    ensures Dropped(Dropped(s, 1), 1) == Dropped(s, 2)
    ensures TopItems(s, 2) == [Popped(Dropped(s, 1)), Popped(s)]
  {
  }

  class FungeStack {
    var entries: array<int>
    var top: nat

    ghost predicate Valid()
      reads this
    {
      top <= entries.Length
    }

    ghost function Contents(): (s: seq<int>)
      requires Valid()
      reads this, entries
    {
      entries[..top]
    }

    constructor ()
      ensures Valid() && Contents() == [] && fresh(entries)
    {
      entries := new int[ALLOCSIZE_STACK];
      top := 0;
    }

    /** stack_duplicate: room for one more item than the original holds. */
    constructor Duplicate(old': FungeStack)
      requires old'.Valid()
      ensures Valid() && Contents() == old'.Contents() && fresh(entries)
    {
      var copy := new int[old'.top + 1];
      forall i | 0 <= i < old'.top { copy[i] := old'.entries[i]; }
      entries := copy;
      top := old'.top;
      new;
      assert Contents() == old'.Contents();
    }

    /** realloc */
    method Resize(newsize: nat)
      requires Valid() && entries.Length <= newsize
      modifies this`entries
      ensures Valid() && Contents() == old(Contents())
      ensures fresh(entries) && entries.Length == newsize
    {
      var bigger := new int[newsize];
      forall i | 0 <= i < entries.Length { bigger[i] := entries[i]; }
      entries := bigger;
    }

    /** stack_prealloc_space: leaves room for more than minfree items. */
    method PreallocSpace(minfree: nat)
      requires Valid()
      modifies this`entries
      ensures Valid() && Contents() == old(Contents())
      ensures top + minfree < entries.Length
      ensures if old(top + minfree < entries.Length) then entries == old(entries) else fresh(entries)
    {
      if top + minfree >= entries.Length {
        var newsize := entries.Length + minfree;
        newsize := newsize + (ALLOCSIZE_STACK - newsize % ALLOCSIZE_STACK);
        Resize(newsize);
      }
    }

    method Push(value: int)
      requires Valid()
      modifies this, entries
      ensures Valid() && Contents() == old(Contents()) + [value]
      ensures entries == old(entries) || fresh(entries)
    {
      if top == entries.Length {
        Resize(entries.Length + ALLOCSIZE_STACK);
      }
      entries[top] := value;
      top := top + 1;
    }

    /** stack_push_no_check */
    method PushNoCheck(value: int)
      requires Valid() && top < entries.Length
      modifies this`top, entries
      ensures Valid() && Contents() == old(Contents()) + [value]
    {
      entries[top] := value;
      top := top + 1;
    }

    method Pop() returns (value: int)
      requires Valid()
      modifies this`top
      ensures Valid() && value == Popped(old(Contents())) && Contents() == Dropped(old(Contents()), 1)
    {
      if top == 0 { return 0; }
      top := top - 1;
      return entries[top];
    }

    method Discard(n: nat)
      requires Valid()
      modifies this`top
      ensures Valid() && Contents() == Dropped(old(Contents()), n)
    {
      if top > n {
        top := top - n;
      } else {
        top := 0;
      }
    }

    method PushVector(v: Vector)
      requires Valid()
      modifies this, entries
      ensures Valid() && Contents() == old(Contents()) + [v.x, v.y]
      ensures entries == old(entries) || fresh(entries)
    {
      Push(v.x);
      Push(v.y);
    }

    method PopVector() returns (v: Vector)
      requires Valid()
      modifies this`top
      ensures Valid() && Contents() == Dropped(old(Contents()), 2)
      ensures var t := TopItems(old(Contents()), 2); v == Vector(t[0], t[1])
    {
      PopTwice(Contents());
      var y := Pop();
      var x := Pop();
      v := Vector(x, y);
    }

    /** stack_dup_top: an empty stack becomes two zeros. */
    method DupTop()
      requires Valid()
      modifies this, entries
      ensures Valid()
      ensures var x := Popped(old(Contents())); Contents() == Dropped(old(Contents()), 1) + [x, x]
    {
      var tmp := if top == 0 then 0 else entries[top - 1];
      Push(tmp);
      if top == 1 { Push(0); }
    }

    /** stack_swap_top: the two pushes are unchecked, the room was made beforehand. */
    method SwapTop()
      requires Valid()
      modifies this, entries
      ensures Valid()
      ensures var t := TopItems(old(Contents()), 2);
        Contents() == Dropped(old(Contents()), 2) + [t[1], t[0]]
    {
      hide Dropped, TopItems, Popped;
      PopTwice(Contents());
      var a := Pop();
      var b := Pop();
      PreallocSpace(2);
      PushNoCheck(a);
      PushNoCheck(b);
    }

    /** stack_zero_fill */
    method ZeroFill(count: nat)
      requires Valid()
      modifies this, entries
      ensures Valid() && Contents() == old(Contents()) + Zeros(count)
      ensures if old(top + count < entries.Length) then entries == old(entries) else fresh(entries)
    {
      PreallocSpace(count);
      forall i | top <= i < top + count { entries[i] := 0; }
      top := top + count;
    }

    /** stack_bulk_copy: the top count items of src, in order, zeros first if it is short. */
    method BulkCopy(src: FungeStack, count0: nat)
      requires Valid() && src.Valid() && src != this && src.entries != entries
      modifies this, entries
      ensures Valid() && Contents() == old(Contents()) + TopItems(src.Contents(), count0)
      ensures entries == old(entries) || fresh(entries)
    {
      hide TopItems, Zeros;
      ghost var mine, theirs := Contents(), src.Contents();
      AppendTop(mine, theirs, count0);
      var count := count0;
      PreallocSpace(count);
      if count > src.top {
        var zeroCount := count - src.top;
        count := count - zeroCount;
        ZeroFill(zeroCount);
      }
      assert src.Contents() == theirs;
      CopyTop(src, count);
    }

    /** The memcpy of stack_bulk_copy, into room made beforehand. */
    method CopyTop(src: FungeStack, count: nat)
      requires Valid() && src.Valid() && src != this && src.entries != entries
      requires count <= src.top && top + count <= entries.Length
      modifies this`top, entries
      ensures Valid() && Contents() == old(Contents()) + src.Contents()[src.top - count..]
    {
      forall i | 0 <= i < count { entries[top + i] := src.entries[src.top - count + i]; }
      top := top + count;
    }
  }

  // ----- the stack stack, on values

  function Reversed(s: seq<int>): (r: seq<int>)
    ensures |r| == |s| && forall i | 0 <= i < |s| :: r[i] == s[|s| - 1 - i]
  {
    seq(|s|, i requires 0 <= i < |s| => s[|s| - 1 - i])
  }

  /** What `{` leaves on the old top stack, before the storage offset. */
  function Kept(s: seq<int>, count: int): seq<int> {
    if count > 0 then Dropped(s, count) else s + Zeros(-count)
  }

  /** What `{` puts on the new top stack. */
  function Taken(s: seq<int>, count: int): seq<int> {
    if count > 0 then TopItems(s, count) else []
  }

  function WithTop(v: seq<seq<int>>, top: seq<int>): (r: seq<seq<int>>)
    requires v != []
    ensures |r| == |v|
  {
    v[..|v| - 1] + [top]
  }

  function TopPopped(v: seq<seq<int>>): (r: seq<seq<int>>)
    requires v != []
    ensures |r| == |v|
  {
    WithTop(v, Dropped(v[|v| - 1], 1))
  }

  /** `{` with the given count: the stacks, bottom first, the top one last. */
  function Begun(v: seq<seq<int>>, count: int, offset: Vector): (r: seq<seq<int>>)
    requires v != []
    ensures |r| == |v| + 1
  {
    var soss := v[|v| - 1];
    v[..|v| - 1] + [Kept(soss, count) + [offset.x, offset.y], Taken(soss, count)]
  }

  /** `}` with the given count, given what is below the storage offset. */
  function Merged(below: seq<int>, toss: seq<int>, count: int): seq<int> {
    if count > 0 then below + TopItems(toss, count) else Dropped(below, -count)
  }

  /** `}` with the given count, and the storage offset it restores. */
  function Ended(v: seq<seq<int>>, count: int): (r: (seq<seq<int>>, Vector))
    requires |v| >= 2
    ensures |r.0| == |v| - 1
  {
    var soss := v[|v| - 2];
    var storage := TopItems(soss, 2);
    (v[..|v| - 2] + [Merged(Dropped(soss, 2), v[|v| - 1], count)], Vector(storage[0], storage[1]))
  }

  /** `u` with the given count. */
  function Transferred(v: seq<seq<int>>, count: int): (r: seq<seq<int>>)
    requires |v| >= 2
    ensures |r| == |v|
  {
    var rest, soss, toss := v[..|v| - 2], v[|v| - 2], v[|v| - 1];
    if count > 0 then rest + [Dropped(soss, count), toss + Reversed(TopItems(soss, count))]
    else rest + [soss + Reversed(TopItems(toss, -count)), Dropped(toss, -count)]
  }

  /** The item at a depth, 0 being the top. */
  function ItemAt(s: seq<int>, depth: nat): int {
    if depth < |s| then s[|s| - 1 - depth] else 0
  }

  /** The same stack for every program: popping from either gives the same items forever. */
  ghost predicate SameItems(s: seq<int>, t: seq<int>) {
    forall depth: nat :: ItemAt(s, depth) == ItemAt(t, depth)
  }

  /** `{` n then `}` n gives back every stack and the storage offset. Only a top stack that
    * was shorter than n differs, by zeros below its bottom that no pop can tell. */
  lemma EndUndoesBegin(v: seq<seq<int>>, count: int, offset: Vector)
    requires v != []
    ensures var (w, o) := Ended(Begun(v, count, offset), count);
      && o == offset && w[..|v| - 1] == v[..|v| - 1]
      && SameItems(w[|v| - 1], v[|v| - 1])
      && (count <= |v[|v| - 1]| ==> w == v)
  {
    hide Kept, Taken, Merged, SameItems, Dropped, TopItems;
    var soss := v[|v| - 1];
    var b := Begun(v, count, offset);
    assert b[..|b| - 2] == v[..|v| - 1];
    StorageRestored(Kept(soss, count), offset);
    MergeUndoesTake(soss, count);
    assert v == v[..|v| - 1] + [soss];
  }

  lemma StorageRestored(s: seq<int>, offset: Vector)
    ensures Dropped(s + [offset.x, offset.y], 2) == s
    ensures TopItems(s + [offset.x, offset.y], 2) == [offset.x, offset.y]
  {
  }

  lemma MergeUndoesTake(s: seq<int>, count: int)
    ensures var m := Merged(Kept(s, count), Taken(s, count), count);
      SameItems(m, s) && (count <= |s| ==> m == s)
  {
    if count > 0 {
      assert TopItems(TopItems(s, count), count) == TopItems(s, count);
      ZerosBelow(s, count);
    } else {
      assert Dropped(s + Zeros(-count), -count) == s;
    }
  }

  lemma ZerosBelow(s: seq<int>, n: nat)
    ensures SameItems(Dropped(s, n) + TopItems(s, n), s)
    ensures n <= |s| ==> Dropped(s, n) + TopItems(s, n) == s
  {
    if |s| < n {
      assert Dropped(s, n) + TopItems(s, n) == Zeros(n - |s|) + s;
    }
  }

  /** Moving n items over with `u` and back again. */
  lemma TransferUndone(v: seq<seq<int>>, count: int)
    requires |v| >= 2
    ensures var u := Transferred(Transferred(v, count), -count);
      && u[..|v| - 2] == v[..|v| - 2]
      && SameItems(u[|v| - 2], v[|v| - 2]) && SameItems(u[|v| - 1], v[|v| - 1])
  {
    hide Dropped, TopItems, Reversed, SameItems, Popped;
    var soss, toss := v[|v| - 2], v[|v| - 1];
    SameAsItself(soss);
    SameAsItself(toss);
    assert Transferred(v, count)[..|v| - 2] == v[..|v| - 2];
    if count > 0 {
      MoveUndone(soss, toss, count);
    } else if count < 0 {
      MoveUndone(toss, soss, -count);
    } else {
      TransferStep(v, count);
    }
  }

  lemma SameAsItself(s: seq<int>)
    ensures SameItems(s, s)
  {
  }

  lemma MoveNothing(a: seq<int>, b: seq<int>)
    ensures Dropped(a, 0) == a && b + Reversed(TopItems(a, 0)) == b
  {
  }

  lemma MoveUndone(a: seq<int>, b: seq<int>, n: nat)
    ensures var moved := b + Reversed(TopItems(a, n));
      && SameItems(Dropped(a, n) + Reversed(TopItems(moved, n)), a)
      && Dropped(moved, n) == b
  {
    var moved := b + Reversed(TopItems(a, n));
    assert Reversed(TopItems(moved, n)) == TopItems(a, n);
    ZerosBelow(a, n);
  }

  /** From depth i on, s holds what t holds from depth j on. */
  ghost predicate SameFrom(s: seq<int>, i: nat, t: seq<int>, j: nat) {
    forall depth: nat | i <= depth :: ItemAt(s, depth) == ItemAt(t, depth - i + j)
  }

  /** n items have been popped off src and pushed on dest one by one: the last one moved is on
    * top, and below them is what was there before. */
  ghost predicate MovedOver(src: seq<int>, dest: seq<int>, src': seq<int>, dest': seq<int>, n: nat) {
    && |dest'| == |dest| + n && |src'| == (if n <= |src| then |src| - n else 0)
    && (forall k: nat | k < n :: ItemAt(dest', k) == ItemAt(src, n - 1 - k))
    && SameFrom(dest', n, dest, 0) && SameFrom(src', 0, src, n)
  }

  /** `u` by its items: a positive count moves from the second stack to the top one, a
    * negative count the other way, and the lower stacks stay. */
  lemma TransferredItems(v: seq<seq<int>>, count: int)
    requires |v| >= 2
    ensures var w := Transferred(v, count);
      var soss, toss, soss', toss' := v[|v| - 2], v[|v| - 1], w[|v| - 2], w[|v| - 1];
      && w[..|v| - 2] == v[..|v| - 2]
      && (count >= 0 ==> MovedOver(soss, toss, soss', toss', count))
      && (count <= 0 ==> MovedOver(toss, soss, toss', soss', -count))
  {
    hide Dropped, TopItems, Reversed, MovedOver;
    var soss, toss := v[|v| - 2], v[|v| - 1];
    MoveNothing(soss, toss);
    MoveNothing(toss, soss);
    if count >= 0 {
      ItemsMoved(soss, toss, count);
    }
    if count <= 0 {
      ItemsMoved(toss, soss, -count);
    }
  }

  lemma ItemsMoved(src: seq<int>, dest: seq<int>, n: nat)
    ensures MovedOver(src, dest, Dropped(src, n), dest + Reversed(TopItems(src, n)), n)
  {
    var dest' := dest + Reversed(TopItems(src, n));
    forall k: nat | k < n
      ensures ItemAt(dest', k) == ItemAt(src, n - 1 - k)
    {
      MovedItem(src, dest, n, k);
    }
    hide TopItems;
  }

  lemma MovedItem(src: seq<int>, dest: seq<int>, n: nat, k: nat)
    requires k < n
    ensures ItemAt(dest + Reversed(TopItems(src, n)), k) == ItemAt(src, n - 1 - k)
  {
    assert Reversed(TopItems(src, n))[n - 1 - k] == TopItems(src, n)[k];
  }

  /** `u` is one pop and one push, then `u` of the rest. */
  lemma TransferStep(v: seq<seq<int>>, count: int)
    requires |v| >= 2
    ensures var rest, soss, toss := v[..|v| - 2], v[|v| - 2], v[|v| - 1];
      Transferred(v, count) ==
      if count > 0 then Transferred(rest + [Dropped(soss, 1), toss + [Popped(soss)]], count - 1)
      else if count < 0 then Transferred(rest + [soss + [Popped(toss)], Dropped(toss, 1)], count + 1)
      else v
  {
    hide Dropped, TopItems, Reversed, Popped;
    var rest, soss, toss := v[..|v| - 2], v[|v| - 2], v[|v| - 1];
    MoveNothing(toss, soss);
    if count > 0 {
      var w := rest + [Dropped(soss, 1), toss + [Popped(soss)]];
      assert w[..|v| - 2] == rest;
      MoveFirst(soss, toss, count - 1);
      MoveNothing(w[|v| - 2], w[|v| - 1]);
      MoveNothing(w[|v| - 1], w[|v| - 2]);
    } else if count < 0 {
      var w := rest + [soss + [Popped(toss)], Dropped(toss, 1)];
      assert w[..|v| - 2] == rest;
      MoveFirst(toss, soss, -count - 1);
    } else {
      assert v == rest + [soss, toss];
    }
  }

  lemma MoveFirst(src: seq<int>, dest: seq<int>, n: nat)
    ensures Dropped(Dropped(src, 1), n) == Dropped(src, n + 1)
    ensures dest + [Popped(src)] + Reversed(TopItems(Dropped(src, 1), n)) == dest + Reversed(TopItems(src, n + 1))
  {
    FirstOff(src, n);
    hide Dropped, TopItems, Reversed, Popped;
    var t, x := TopItems(Dropped(src, 1), n), Popped(src);
    ReversedLast(t, x);
    assert dest + [x] + Reversed(t) == dest + ([x] + Reversed(t));
  }

  lemma FirstOff(s: seq<int>, n: nat)
    ensures Dropped(Dropped(s, 1), n) == Dropped(s, n + 1)
    ensures TopItems(s, n + 1) == TopItems(Dropped(s, 1), n) + [Popped(s)]
  {
    if n + 1 > |s| > 0 {
      assert Zeros(n + 1 - |s|) + s == Zeros(n - |s[..|s| - 1]|) + s[..|s| - 1] + [s[|s| - 1]];
    }
  }

  lemma LastOff(s: seq<int>, n: nat)
    ensures Dropped(Dropped(s, n), 1) == Dropped(s, n + 1)
    ensures TopItems(s, n + 1) == [Popped(Dropped(s, n))] + TopItems(s, n)
  {
  }

  lemma ReversedLast(t: seq<int>, x: int)
    ensures Reversed(t + [x]) == [x] + Reversed(t)
    ensures Reversed([x] + t) == Reversed(t) + [x]
  {
  }

  /** `{` by its items: the storage offset goes on the second stack with y on top, above what
    * is left there, or above zeros for a negative count; the top stack gets the items that
    * were on top, in the same order. */
  lemma BegunItems(v: seq<seq<int>>, count: int, offset: Vector)
    requires v != []
    ensures var w := Begun(v, count, offset); var s, kept, taken := v[|v| - 1], w[|v| - 1], w[|v|];
      && w[..|v| - 1] == v[..|v| - 1]
      && ItemAt(kept, 0) == offset.y && ItemAt(kept, 1) == offset.x
      && (count >= 0 ==> |taken| == count && |kept| == 2 + if count <= |s| then |s| - count else 0)
      && (count >= 0 ==> SameFrom(kept, 2, s, count))
      && (forall k: nat | k < count :: ItemAt(taken, k) == ItemAt(s, k))
      && (count < 0 ==> taken == [] && |kept| == 2 - count + |s|)
      && (forall depth: nat | 2 <= depth < 2 - count :: ItemAt(kept, depth) == 0)
      && (count < 0 ==> SameFrom(kept, 2 - count, s, 0))
  {
  }

  /** `}` by its items: the storage offset is restored from the second stack, y from its top,
    * which then gets the items on top of the first, or loses as many for a negative count. */
  lemma EndedItems(v: seq<seq<int>>, count: int)
    requires |v| >= 2
    ensures var (w, o) := Ended(v, count); var toss, soss, t := v[|v| - 1], v[|v| - 2], w[|v| - 2];
      && w[..|v| - 2] == v[..|v| - 2]
      && o == Vector(ItemAt(soss, 1), ItemAt(soss, 0))
      && (count >= 0 ==> |t| == count + if 2 <= |soss| then |soss| - 2 else 0)
      && (forall k: nat | k < count :: ItemAt(t, k) == ItemAt(toss, k))
      && (count >= 0 ==> SameFrom(t, count, soss, 2))
      && (count < 0 ==> |t| == if 2 - count <= |soss| then |soss| - 2 + count else 0)
      && (count < 0 ==> SameFrom(t, 0, soss, 2 - count))
  {
  }

  // ----- the stack stack, in memory

  class StackStack {
    var stacks: seq<FungeStack>
    var size: nat
    /** The contents of the stacks, bottom first. */
    ghost var view: seq<seq<int>>

    ghost var Repr: set<object>

    /** No two stacks share storage, and the table of stacks has room for them. */
    ghost predicate Valid()
      reads this, Repr
      ensures Valid() ==> this in Repr
    {
      && this in Repr && 0 < |stacks| == |view| && |stacks| <= size
      && (forall i | 0 <= i < |stacks| :: stacks[i] in Repr && stacks[i].entries in Repr)
      && (forall i | 0 <= i < |stacks| :: stacks[i].Valid() && stacks[i].Contents() == view[i])
      && (forall i, j | 0 <= i < j < |stacks| :: stacks[i] != stacks[j] && stacks[i].entries != stacks[j].entries)
    }

    constructor ()
      ensures Valid() && fresh(Repr) && view == [[]]
    {
      var stack := new FungeStack();
      stacks := [stack];
      size := ALLOCSIZE_STACKSTACK;
      view := [[]];
      Repr := {this, stack, stack.entries};
    }

    /** stack_push on the top stack. */
    method PushTop(value: int)
      requires Valid()
      modifies Repr
      ensures Valid() && fresh(Repr - old(Repr)) && stacks == old(stacks)
      ensures view == WithTop(old(view), old(view)[|old(view)| - 1] + [value])
    {
      hide FungeStack.Contents;
      var toss := stacks[|stacks| - 1];
      toss.Push(value);
      view := WithTop(view, view[|view| - 1] + [value]);
      Repr := Repr + {toss.entries};
    }

    /** stack_pop on the top stack. */
    method PopTop() returns (value: int)
      requires Valid()
      modifies Repr
      ensures Valid() && Repr == old(Repr) && stacks == old(stacks)
      ensures value == Popped(old(view)[|old(view)| - 1])
      ensures view == TopPopped(old(view))
    {
      hide FungeStack.Contents, Dropped, Popped;
      var toss := stacks[|stacks| - 1];
      value := toss.Pop();
      view := TopPopped(view);
    }

    /** Puts a new top stack on. */
    method Add(toss: FungeStack)
      requires Valid() && toss.Valid() && toss !in Repr && toss.entries !in Repr
      modifies this
      ensures Valid() && view == old(view) + [toss.Contents()]
      ensures stacks == old(stacks) + [toss] && Repr == old(Repr) + {toss, toss.entries}
      ensures size == old(size) + if old(size == |stacks|) then ALLOCSIZE_STACKSTACK else 0
    {
      hide FungeStack.Contents;
      if size == |stacks| {
        size := size + ALLOCSIZE_STACKSTACK;
      }
      stacks := stacks + [toss];
      view := view + [toss.Contents()];
      Repr := Repr + {toss, toss.entries};
    }

    /** Moves count items and the storage offset between the top stack and a new one. */
    method TakeFromTop(toss: FungeStack, count: int, offset: Vector)
      requires Valid() && toss.Valid() && toss !in Repr && toss.entries !in Repr && toss.Contents() == []
      modifies Repr, toss, toss.entries
      ensures Valid() && fresh(Repr - old(Repr)) && toss !in Repr && toss.entries !in Repr
      ensures toss.Valid() && (toss.entries == old(toss.entries) || fresh(toss.entries))
      ensures stacks == old(stacks) && size == old(size)
      ensures view + [toss.Contents()] == Begun(old(view), count, offset)
    {
      hide Kept, Taken, FungeStack.Contents;
      var last := |stacks| - 1;
      var soss := stacks[last];
      BeginPair(soss, toss, count, offset);
      view := view[..last] + [Kept(view[last], count) + [offset.x, offset.y]];
      Repr := Repr + {soss.entries};
    }

    /** stackstack_begin */
    method Begin(count: int, offset: Vector)
      requires Valid()
      modifies Repr
      ensures Valid() && fresh(Repr - old(Repr))
      ensures view == Begun(old(view), count, offset)
    {
      hide Begun, FungeStack.Contents;
      var toss := new FungeStack();
      toss.PreallocSpace((if count < 0 then -count else count) + 2);
      assert Valid();
      TakeFromTop(toss, count, offset);
      Add(toss);
    }

    /** stackstack_end; the discarded top stack is freed. */
    method End(count: int) returns (offset: Vector)
      requires Valid() && 2 <= |stacks|
      modifies Repr
      ensures Valid() && fresh(Repr - old(Repr))
      ensures (view, offset) == Ended(old(view), count)
    {
      hide Merged, Dropped, TopItems, FungeStack.Contents;
      var last := |stacks| - 1;
      offset := EndPair(stacks[last - 1], stacks[last], count);
      ghost var w := Ended(view, count).0;
      Repr := Repr + {stacks[last - 1].entries};
      stacks := stacks[..last];
      view := w;
    }

    /** stackstack_transfer between the two topmost stacks. */
    method Transfer(count: int)
      requires Valid() && 2 <= |stacks|
      modifies Repr
      ensures Valid() && fresh(Repr - old(Repr)) && |stacks| == |old(stacks)|
      ensures view == Transferred(old(view), count)
    {
      hide Dropped, TopItems, Reversed, FungeStack.Contents;
      var last := |stacks| - 1;
      var soss, toss := stacks[last - 1], stacks[last];
      MoveNothing(view[last], view[last - 1]);
      ghost var w := Transferred(view, count);
      if count > 0 {
        MoveItems(toss, soss, count);
      } else if count < 0 {
        MoveItems(soss, toss, -count);
      }
      Repr := Repr + {soss.entries, toss.entries};
      view := w;
    }

    /** stackstack_duplicate: the copy shares no storage with the original. */
    constructor Duplicate(other: StackStack)
      requires other.Valid()
      ensures Valid() && fresh(Repr) && view == other.view && size == other.size
    {
      var first := new FungeStack.Duplicate(other.stacks[0]);
      stacks, view, size := [first], [first.Contents()], other.size;
      Repr := {this, first, first.entries};
      new;
      var i := 1;
      while i < |other.stacks|
        invariant 1 <= i <= |other.stacks| && |stacks| == i && view == other.view[..i]
        invariant Valid() && fresh(Repr) && size == other.size && other.Valid()
      {
        hide FungeStack.Contents;
        var copy := new FungeStack.Duplicate(other.stacks[i]);
        Add(copy);
        i := i + 1;
      }
    }
  }

  /** The item moves of stackstack_end between the two stacks it involves. */
  method EndPair(soss: FungeStack, toss: FungeStack, count: int) returns (offset: Vector)
    requires soss.Valid() && toss.Valid() && soss != toss && soss.entries != toss.entries
    modifies soss, soss.entries
    ensures soss.Valid() && (soss.entries == old(soss.entries) || fresh(soss.entries))
    ensures soss.Contents() == Merged(Dropped(old(soss.Contents()), 2), toss.Contents(), count)
    ensures var t := TopItems(old(soss.Contents()), 2); offset == Vector(t[0], t[1])
  {
    offset := soss.PopVector();
    if count > 0 {
      soss.BulkCopy(toss, count);
    } else if count < 0 {
      soss.Discard(-count);
    }
  }

  /** Pops count items off src one by one, pushing each on dest. */
  method MoveItems(dest: FungeStack, src: FungeStack, count: nat)
    requires dest.Valid() && src.Valid() && dest != src && dest.entries != src.entries
    modifies dest, dest.entries, src`top
    ensures dest.Valid() && src.Valid() && src.entries == old(src.entries)
    ensures dest.entries == old(dest.entries) || fresh(dest.entries)
    ensures src.Contents() == Dropped(old(src.Contents()), count)
    ensures dest.Contents() == old(dest.Contents()) + Reversed(TopItems(old(src.Contents()), count))
  {
    ghost var d, s := dest.Contents(), src.Contents();
    var n := count;
    MoveNothing(s, d);
    while n != 0
      invariant 0 <= n <= count && dest.Valid() && src.Valid()
      invariant src.entries == old(src.entries) && (dest.entries == old(dest.entries) || fresh(dest.entries))
      invariant src.Contents() == Dropped(s, count - n)
      invariant dest.Contents() == d + Reversed(TopItems(s, count - n))
    {
      hide Dropped, TopItems, Reversed, Popped;
      MoveOneMore(d, s, count - n);
      n := n - 1;
      var x := src.Pop();
      dest.Push(x);
    }
  }

  lemma MoveOneMore(d: seq<int>, s: seq<int>, m: nat)
    ensures Dropped(Dropped(s, m), 1) == Dropped(s, m + 1)
    ensures d + Reversed(TopItems(s, m)) + [Popped(Dropped(s, m))] == d + Reversed(TopItems(s, m + 1))
  {
    LastOff(s, m);
    hide Dropped, TopItems, Reversed, Popped;
    var t, x := TopItems(s, m), Popped(Dropped(s, m));
    ReversedLast(t, x);
    assert d + Reversed(t) + [x] == d + (Reversed(t) + [x]);
  }

  /** The item moves of stackstack_begin between the two stacks it involves. */
  method BeginPair(soss: FungeStack, toss: FungeStack, count: int, offset: Vector)
    requires soss.Valid() && toss.Valid() && soss != toss && soss.entries != toss.entries
    requires toss.Contents() == []
    modifies soss, soss.entries, toss, toss.entries
    ensures soss.Valid() && toss.Valid() && soss.entries != toss.entries
    ensures soss.entries == old(soss.entries) || fresh(soss.entries)
    ensures toss.entries == old(toss.entries) || fresh(toss.entries)
    ensures soss.Contents() == Kept(old(soss.Contents()), count) + [offset.x, offset.y]
    ensures toss.Contents() == Taken(old(soss.Contents()), count)
  {
    hide TopItems, Dropped;
    ghost var s := soss.Contents();
    if count > 0 {
      toss.BulkCopy(soss, count);
      soss.Discard(count);
    } else if count < 0 {
      soss.ZeroFill(-count);
    }
    assert soss.Contents() == Kept(s, count);
    assert toss.Contents() == Taken(s, count);
    soss.PushVector(offset);
  }
}
