/**
 * The arithmetic of `printInfo`: the portal reports the account balance in
 * tenths of a cent and the monthly usage in seconds. The first 30 hours are
 * free, every further 180 seconds cost one cent, and billing stops at 130
 * hours (a 20-yuan cap). Python's float `/` is modelled exactly, with `real`.
 */
module Billing {
  import opened Wrappers

  const Price: int := 180             // seconds per cent
  const FreeTime: int := 30 * 3600    // seconds
  const TopTime: int := 130 * 3600    // seconds

  function Max(a: int, b: int): int { if a >= b then a else b }
  function Min(a: int, b: int): int { if a <= b then a else b }

  datatype Clock = Clock(hour: int, minute: int, second: int)

  /**
   * `formatTime`: floor division by 3600 and then 60. Dafny's `/` by a
   * positive divisor is Python's `//`, so this holds for negative input too.
   */
  function FormatTime(secs: int): (c: Clock)
    ensures c.hour * 3600 + c.minute * 60 + c.second == secs
    ensures 0 <= c.minute < 60 && 0 <= c.second < 60
    ensures secs >= 0 ==> c.hour >= 0
  {
    var hour := secs / 3600;
    var minute := (secs - hour * 3600) / 60;
    Clock(hour, minute, secs - hour * 3600 - minute * 60)
  }

  /** The decomposition is the only one with minutes and seconds below 60. */
  lemma FormatTimeUnique(secs: int, c: Clock)
    requires c.hour * 3600 + c.minute * 60 + c.second == secs
    requires 0 <= c.minute < 60 && 0 <= c.second < 60
    ensures c == FormatTime(secs)
  {
    var d := FormatTime(secs);
    var k := c.hour - d.hour;
    assert k * 3600 == (d.minute * 60 + d.second) - (c.minute * 60 + c.second);
    assert -1 < k < 1;
    var l := c.minute - d.minute;
    assert l * 60 == d.second - c.second;
    assert -1 < l < 1;
  }

  /** Billed seconds this month: usage beyond the free time, clamped to the capped span. */
  function PaidTime(totTime: int): (p: int)
    ensures 0 <= p <= TopTime - FreeTime
    ensures totTime <= FreeTime ==> p == 0
    ensures totTime >= TopTime ==> p == TopTime - FreeTime
    ensures FreeTime <= totTime <= TopTime ==> p == totTime - FreeTime
  {
    Min(Max(totTime - FreeTime, 0), TopTime - FreeTime)
  }

  lemma PaidTimeMonotone(a: int, b: int)
    requires a <= b
    ensures PaidTime(a) <= PaidTime(b)
  {
  }

  /** Cents consumed this month (`paidTime / PRICE`): never above the 2000-cent cap. */
  function Consumed(totTime: int): (cents: real)
    ensures 0.0 <= cents <= 2000.0
    ensures totTime <= FreeTime ==> cents == 0.0
    ensures totTime >= TopTime ==> cents == 2000.0
  {
    PaidTime(totTime) as real / Price as real
  }

  lemma ConsumedMonotone(a: int, b: int)
    requires a <= b
    ensures Consumed(a) <= Consumed(b)
  {
    PaidTimeMonotone(a, b);
  }

  /** What `printInfo` says after the consumption line. */
  datatype Projection =
    | Capped                    // "this month's fee has reached the 20-yuan cap"
    | Insufficient(remain: int) // balance runs out before the cap: seconds still usable
    | Sufficient(headroom: int) // balance covers the cap: seconds until the cap

  /**
   * The three-way branch of `printInfo`. `accountBalance` is the portal's
   * `account_balance` (tenths of a cent); the source compares the floats
   * `accountBalance / 10` and `timeLeft / 180`.
   */
  function Project(accountBalance: int, totTime: int): (p: Projection)
    ensures p.Capped? <==> totTime > TopTime
    ensures !p.Capped? ==> (p.Insufficient? <==> 18 * accountBalance <= TopTime - Max(FreeTime, totTime))
    ensures !p.Capped? ==> (p.Insufficient? <==> accountBalance as real / 10.0 <= (TopTime - Max(FreeTime, totTime)) as real / 180.0)
    ensures p.Insufficient? ==> p.remain == 18 * accountBalance + Max(0, FreeTime - totTime)
    ensures p.Insufficient? ==> p.remain <= TopTime - totTime
    ensures p.Sufficient? ==> p.headroom == TopTime - totTime && p.headroom >= 0
  {
    if totTime > TopTime then Capped
    else
      var timeLeft := TopTime - Max(FreeTime, totTime);
      var balance := accountBalance as real / 10.0;
      var moneyToPay := timeLeft as real / Price as real;
      BalanceTest(accountBalance, timeLeft);
      if balance <= moneyToPay then
        BalanceTime(accountBalance);
        Insufficient(18 * accountBalance + Max(0, FreeTime - totTime))
      else
        Sufficient(TopTime - totTime)
  }

  /** The float comparison of line 114 is the integer test `18 * balance <= timeLeft`. */
  lemma BalanceTest(accountBalance: int, timeLeft: int)
    ensures (accountBalance as real / 10.0 <= timeLeft as real / 180.0) <==> 18 * accountBalance <= timeLeft
  {
    assert accountBalance as real / 10.0 * 180.0 == (18 * accountBalance) as real;
    assert timeLeft as real / 180.0 * 180.0 == timeLeft as real;
  }

  /** `balance * PRICE` of line 115 is the whole number `18 * accountBalance`. */
  lemma BalanceTime(accountBalance: int)
    ensures accountBalance as real / 10.0 * 180.0 == (18 * accountBalance) as real
  {
  }

  /** At exactly 130 hours the cap is not yet reported: the test is strict. */
  lemma CapIsStrict(accountBalance: int)
    ensures Project(accountBalance, TopTime) == if accountBalance > 0 then Sufficient(0) else Insufficient(18 * accountBalance)
  {
  }

  datatype UserInfo = UserInfo(fullName: string, userId: string, accountBalance: int)

  /** The figures `printInfo` prints. */
  datatype Report = Report(balanceCents: real, used: Clock, consumedCents: real, projection: Projection)

  datatype InfoOutcome =
    | NoUserInfo         // user info query failed: warn and exit
    | NoTimeInfo         // usage query failed: warn and exit
    | Status(report: Report)

  /** `printInfo`, with the two portal queries given as their results. */
  function PrintInfo(user: Option<UserInfo>, totalTime: Option<int>): (o: InfoOutcome)
    ensures o.NoUserInfo? <==> user.None?
    ensures o.NoTimeInfo? <==> user.Some? && totalTime.None?
    ensures o.Status? ==> o.report.balanceCents * 10.0 == user.value.accountBalance as real
    ensures o.Status? ==> o.report.used.hour * 3600 + o.report.used.minute * 60 + o.report.used.second == totalTime.value
    ensures o.Status? ==> o.report.consumedCents * 180.0 == PaidTime(totalTime.value) as real
    ensures o.Status? ==> (o.report.projection.Capped? <==> totalTime.value > TopTime)
    ensures o.Status? ==> o.report.used == FormatTime(totalTime.value)
    ensures o.Status? ==> o.report.projection == Project(user.value.accountBalance, totalTime.value)
  {
    match user
    case None => NoUserInfo
    case Some(info) =>
      match totalTime
      case None => NoTimeInfo
      case Some(tot) =>
        Status(Report(info.accountBalance as real / 10.0, FormatTime(tot), Consumed(tot), Project(info.accountBalance, tot)))
  }

  /** 5 yuan of balance and 40 hours used: 2.00 yuan consumed, 25 hours left on the balance. */
  lemma ExampleFortyHours()
    ensures Consumed(40 * 3600) == 200.0
    ensures Project(5000, 40 * 3600) == Insufficient(90000)
    ensures FormatTime(90000) == Clock(25, 0, 0)
  {
  }
}
