/** The instructions of the DATE fingerprint as they work on the stack: what they pop, what
  * they push, and when they reverse the IP instead. */
module DateStack {
  import opened Dates
  import opened Ips
  import opened Lahey
  import opened Stacks

  /** The top three items, the day topmost. */
  function YmdOf(s: seq<int>): Ymd {
    var i := TopItems(s, 3);
    Ymd(i[0], i[1], i[2])
  }

  function Pushed(s: seq<int>, d: Ymd): seq<int> { s + [d.year, d.month, d.day] }

  lemma PopThree(s: seq<int>)
    ensures Dropped(Dropped(Dropped(s, 1), 1), 1) == Dropped(s, 3)
    ensures YmdOf(s) == Ymd(Popped(Dropped(s, 2)), Popped(Dropped(s, 1)), Popped(s))
  {
  }

  /** The day is on top of the stack, then come the month and the year, both when a date is
    * popped and when it is pushed. */
  lemma DateByDepth(s: seq<int>, d: Ymd)
    ensures YmdOf(s) == Ymd(ItemAt(s, 2), ItemAt(s, 1), ItemAt(s, 0))
    ensures ItemAt(Pushed(s, d), 0) == d.day && ItemAt(Pushed(s, d), 1) == d.month && ItemAt(Pushed(s, d), 2) == d.year
    ensures SameFrom(Pushed(s, d), 3, s, 0)
  {
  }

  /** What a pushed date is popped as. */
  lemma PoppedAsPushed(s: seq<int>, d: Ymd)
    ensures YmdOf(Pushed(s, d)) == d && Dropped(Pushed(s, d), 3) == s
  {
  }

  /** pop_ymd: always takes three items; a date that is none reverses the IP. */
  method PopYmd(ip: InstructionPointer, stack: FungeStack) returns (ok: bool, d: Ymd)
    requires stack.Valid()
    modifies ip`delta, stack`top
    ensures stack.Valid() && stack.Contents() == Dropped(old(stack.Contents()), 3)
    ensures d == YmdOf(old(stack.Contents())) && (ok <==> IsDate(d))
    ensures ip.delta == if ok then old(ip.delta) else old(ip.delta).Reversed()
  {
    hide Dropped, TopItems, Popped, IsLeapYear;
    PopThree(stack.Contents());
    PopTwice(stack.Contents());
    var day := stack.Pop();
    var month := stack.Pop();
    var year := stack.Pop();
    d := Ymd(year, month, day);
    if day <= 0 || month <= 0 || month > 12 || year == 0 {
      ip.Reverse();
      return false, d;
    }
    if day > MonthLength(year, month) {
      ip.Reverse();
      return false, d;
    }
    return true, d;
  }

  method PushYmd(stack: FungeStack, d: Ymd)
    requires stack.Valid()
    modifies stack, stack.entries
    ensures stack.entries == old(stack.entries) || fresh(stack.entries)
    ensures stack.Valid() && stack.Contents() == Pushed(old(stack.Contents()), d)
  {
    hide FungeStack.Contents;
    stack.Push(d.year);
    stack.Push(d.month);
    stack.Push(d.day);
  }

  /** A: a date and a number of days become the date that many days on, which is always one
    * that the fingerprint accepts. */
  method FingerAddDays(ip: InstructionPointer, stack: FungeStack)
    requires stack.Valid()
    modifies ip`delta, stack, stack.entries
    ensures stack.Valid() && (stack.entries == old(stack.entries) || fresh(stack.entries))
    ensures var s := old(stack.Contents()); var d, rest := YmdOf(Dropped(s, 1)), Dropped(s, 4);
      if IsDate(d) then ip.delta == old(ip.delta) && stack.Contents() == Pushed(rest, AddDays(d, Popped(s)))
                        && IsDate(YmdOf(stack.Contents()))
      else ip.delta == old(ip.delta).Reversed() && stack.Contents() == rest
  {
    hide IsDate, YmdToJulian, JulianToYmd, YmdOf, Dropped, Popped, Pushed, FungeStack.Contents;
    ghost var s := stack.Contents();
    DropsAddUp(s, 1, 3);
    var days := stack.Pop();
    var ok, d := PopYmd(ip, stack);
    if ok {
      var jdn := YmdToJulian(d) + days;
      NumberRoundTrip(jdn);
      PoppedAsPushed(stack.Contents(), JulianToYmd(jdn));
      PushYmd(stack, JulianToYmd(jdn));
    }
  }

  lemma DropsAddUp(s: seq<int>, m: nat, n: nat)
    ensures Dropped(Dropped(s, m), n) == Dropped(s, m + n)
  {
  }

  /** C: any number becomes an accepted date, the one J gives the number for. */
  method FingerJdnToYmd(stack: FungeStack)
    requires stack.Valid()
    modifies stack, stack.entries
    ensures stack.entries == old(stack.entries) || fresh(stack.entries)
    ensures stack.Valid()
    ensures var s := old(stack.Contents()); var d := JulianToYmd(Popped(s));
      IsDate(d) && YmdToJulian(d) == Popped(s) && stack.Contents() == Pushed(Dropped(s, 1), d)
  {
    hide IsDate, YmdToJulian, JulianToYmd, YmdOf, Dropped, Popped, Pushed, FungeStack.Contents;
    var date := stack.Pop();
    NumberRoundTrip(date);
    PushYmd(stack, JulianToYmd(date));
  }

  /** J: an accepted date becomes its number. */
  method FingerYmdToJdn(ip: InstructionPointer, stack: FungeStack)
    requires stack.Valid()
    modifies ip`delta, stack, stack.entries
    ensures stack.Valid() && (stack.entries == old(stack.entries) || fresh(stack.entries))
    ensures var s := old(stack.Contents()); var d, rest := YmdOf(s), Dropped(s, 3);
      if IsDate(d) then ip.delta == old(ip.delta) && stack.Contents() == rest + [YmdToJulian(d)]
      else ip.delta == old(ip.delta).Reversed() && stack.Contents() == rest
  {
    hide IsDate, YmdToJulian, YmdOf, Dropped, FungeStack.Contents;
    var ok, d := PopYmd(ip, stack);
    if ok {
      stack.Push(YmdToJulian(d));
    }
  }

  /** D: two accepted dates become the days between them; the first date that is none stops
    * the popping. */
  method FingerDayDiff(ip: InstructionPointer, stack: FungeStack)
    requires stack.Valid()
    modifies ip`delta, stack, stack.entries
    ensures stack.Valid() && (stack.entries == old(stack.entries) || fresh(stack.entries))
    ensures var s := old(stack.Contents()); var a := YmdOf(s); var b := YmdOf(Dropped(s, 3));
      if !IsDate(a) then ip.delta == old(ip.delta).Reversed() && stack.Contents() == Dropped(s, 3)
      else if !IsDate(b) then ip.delta == old(ip.delta).Reversed() && stack.Contents() == Dropped(s, 6)
      else ip.delta == old(ip.delta) && stack.Contents() == Dropped(s, 6) + [DaysBetween(a, b)]
  {
    hide IsDate, YmdToJulian, YmdOf, Dropped, FungeStack.Contents;
    DropsAddUp(stack.Contents(), 3, 3);
    var ok, a := PopYmd(ip, stack);
    if !ok { return; }
    var b;
    ok, b := PopYmd(ip, stack);
    if !ok { return; }
    stack.Push(YmdToJulian(b) - YmdToJulian(a));
  }

  /** J, then C, leave an accepted date as it is, and C, then J, any number. */
  method ThereAndBack(ip: InstructionPointer, stack: FungeStack, d: Ymd, n: int)
    requires stack.Valid() && IsDate(d)
    modifies ip`delta, stack, stack.entries
    ensures stack.Valid() && stack.Contents() == Pushed(old(stack.Contents()), d) + [n] && ip.delta == old(ip.delta)
  {
    hide IsDate, YmdToJulian, JulianToYmd, YmdOf, Dropped, Popped, Pushed, FungeStack.Contents;
    ghost var s := stack.Contents();
    PoppedAsPushed(s, d);
    PushYmd(stack, d);
    FingerYmdToJdn(ip, stack);
    OnTop(s, YmdToJulian(d));
    FingerJdnToYmd(stack);
    DateRoundTrip(d);
    ghost var t := stack.Contents();
    stack.Push(n);
    OnTop(t, n);
    FingerJdnToYmd(stack);
    PoppedAsPushed(t, JulianToYmd(n));
    FingerYmdToJdn(ip, stack);
  }

  lemma OnTop(s: seq<int>, n: int)
    ensures Popped(s + [n]) == n && Dropped(s + [n], 1) == s
  {
  }
}
