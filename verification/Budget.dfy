// Token budgets over calendar windows (app/auth/budget.py), checked before a request runs
// and charged after it (app/auth/dependency.py, app/api/routes/chat.py).
module Budget {
  import opened Wrappers

  datatype Date = Date(year: nat, month: nat, day: nat) {
    ghost predicate Valid() {
      1 <= month <= 12 && 1 <= day <= 31
    }

    ghost predicate NotAfter(other: Date) {
      year < other.year
      || (year == other.year && (month < other.month || (month == other.month && day <= other.day)))
    }

    function Month(): MonthKey {
      MonthKey(year, month)
    }
  }

  datatype MonthKey = MonthKey(year: nat, month: nat)

  // Dates are in the order in which they are numbered, twelve months of up to 31 days a year.
  lemma DatesInOrder(d: Date, other: Date)
    requires d.Valid() && other.Valid()
    ensures d.NotAfter(other) <==> 372 * d.year + 31 * d.month + d.day <= 372 * other.year + 31 * other.month + other.day
  {
    assert d.year < other.year ==> 372 * d.year + 372 <= 372 * other.year;
  }

  // Tokens used per key and day, and per key and month; an absent entry means none.
  type Daily = map<(string, Date), nat>
  type Monthly = map<(string, MonthKey), nat>

  function Used<K>(m: map<K, nat>, k: K): nat {
    if k in m then m[k] else 0
  }

  function Charged<K>(m: map<K, nat>, k: K, tokens: int): map<K, nat> {
    if tokens <= 0 then m else m[k := Used(m, k) + tokens]
  }

  predicate Within(daily: Daily, monthly: Monthly, key: string, now: Date, dailyLimit: Option<nat>, monthlyLimit: Option<nat>) {
    && (dailyLimit.Some? ==> Used(daily, (key, now)) < dailyLimit.value)
    && (monthlyLimit.Some? ==> Used(monthly, (key, now.Month())) < monthlyLimit.value)
  }

  // One call of `Record`.
  datatype Charge = Charge(key: string, on: Date, tokens: int)

  // What the charges say was used, counted from the charges themselves.
  ghost function SpentOn(charges: seq<Charge>, key: string, day: Date): nat {
    if charges == [] then 0
    else
      var c := charges[|charges| - 1];
      SpentOn(charges[..|charges| - 1], key, day) + (if c.key == key && c.on == day && c.tokens > 0 then c.tokens else 0)
  }

  ghost function SpentIn(charges: seq<Charge>, key: string, year: nat, month: nat): nat {
    if charges == [] then 0
    else
      var c := charges[|charges| - 1];
      SpentIn(charges[..|charges| - 1], key, year, month)
      + (if c.key == key && c.on.year == year && c.on.month == month && c.tokens > 0 then c.tokens else 0)
  }

  // The totals are those of the charges.
  ghost predicate Accounts(daily: Daily, monthly: Monthly, charges: seq<Charge>) {
    && (forall key, day :: Used(daily, (key, day)) == SpentOn(charges, key, day))
    && (forall key, m :: Used(monthly, (key, m)) == SpentIn(charges, key, m.year, m.month))
  }

  lemma AccountsGrow(daily: Daily, monthly: Monthly, charges: seq<Charge>, c: Charge)
    requires Accounts(daily, monthly, charges)
    ensures Accounts(Charged(daily, (c.key, c.on), c.tokens), Charged(monthly, (c.key, c.on.Month()), c.tokens), charges + [c])
  {
    var d, m := Charged(daily, (c.key, c.on), c.tokens), Charged(monthly, (c.key, c.on.Month()), c.tokens);
    assert (charges + [c])[..|charges|] == charges;
    forall key, day
      ensures Used(d, (key, day)) == SpentOn(charges + [c], key, day)
    {
      assert Used(daily, (key, day)) == SpentOn(charges, key, day);
    }
    forall key, month: MonthKey
      ensures Used(m, (key, month)) == SpentIn(charges + [c], key, month.year, month.month)
    {
      assert Used(monthly, (key, month)) == SpentIn(charges, key, month.year, month.month);
    }
  }

  class BudgetTracker {
    var daily: Daily
    var monthly: Monthly
    ghost var charges: seq<Charge>

    ghost predicate Valid()
      reads this
    {
      Accounts(daily, monthly, charges)
    }

    constructor ()
      ensures Valid() && charges == []
      ensures daily == map[] && monthly == map[]
    {
      daily, monthly, charges := map[], map[], [];
    }

    method Record(key: string, tokens: int, now: Date)
      requires Valid()
      modifies this
      ensures Valid() && charges == old(charges) + [Charge(key, now, tokens)]
      ensures daily == Charged(old(daily), (key, now), tokens)
      ensures monthly == Charged(old(monthly), (key, now.Month()), tokens)
    {
      AccountsGrow(daily, monthly, charges, Charge(key, now, tokens));
      charges := charges + [Charge(key, now, tokens)];
      if tokens <= 0 {
        return;
      }
      daily := daily[(key, now) := Used(daily, (key, now)) + tokens];
      monthly := monthly[(key, now.Month()) := Used(monthly, (key, now.Month())) + tokens];
    }

    // Passes exactly while what was charged to the key that day, and that month, is below
    // the limits there are.
    method Check(key: string, dailyLimit: Option<nat>, monthlyLimit: Option<nat>, now: Date) returns (ok: bool)
      requires Valid()
      ensures ok <==>
                && (dailyLimit.Some? ==> SpentOn(charges, key, now) < dailyLimit.value)
                && (monthlyLimit.Some? ==> SpentIn(charges, key, now.year, now.month) < monthlyLimit.value)
      ensures ok <==> Within(daily, monthly, key, now, dailyLimit, monthlyLimit)
    {
      assert Used(monthly, (key, now.Month())) == SpentIn(charges, key, now.Month().year, now.Month().month);
      if dailyLimit.None? && monthlyLimit.None? {
        return true;
      }
      if dailyLimit.Some? {
        var used := Used(daily, (key, now));
        if used >= dailyLimit.value {
          return false;
        }
      }
      if monthlyLimit.Some? {
        var used := Used(monthly, (key, now.Month()));
        if used >= monthlyLimit.value {
          return false;
        }
      }
      return true;
    }
  }

  // What happens to the tracker over time: a request is checked, and if it was let through
  // it later finishes, charging what it turned out to cost (nothing, if it failed).
  datatype Event =
    | Checked(key: string, on: Date)
    | Finished(key: string, on: Date, tokens: int)

  datatype Limits = Limits(daily: Option<nat>, monthly: Option<nat>)

  // The tracker, plus how many requests of each key are between check and record.
  datatype State = State(daily: Daily, monthly: Monthly, inFlight: map<string, nat>)

  const INITIAL := State(map[], map[], map[])

  function Step(s: State, e: Event, limits: map<string, Limits>): State {
    match e
    case Checked(key, on) =>
      var l := if key in limits then limits[key] else Limits(None, None);
      if Within(s.daily, s.monthly, key, on, l.daily, l.monthly)
      then s.(inFlight := s.inFlight[key := Used(s.inFlight, key) + 1])
      else s
    case Finished(key, on, tokens) =>
      State(Charged(s.daily, (key, on), tokens), Charged(s.monthly, (key, on.Month()), tokens),
            s.inFlight[key := if Used(s.inFlight, key) == 0 then 0 else Used(s.inFlight, key) - 1])
  }

  function After(run: seq<Event>, limits: map<string, Limits>): State {
    if run == [] then INITIAL
    else Step(After(run[..|run| - 1], limits), run[|run| - 1], limits)
  }

  // The charges a run amounts to: one for every request that finishes.
  ghost function ChargesOf(run: seq<Event>): seq<Charge> {
    if run == [] then []
    else
      match run[|run| - 1]
      case Finished(key, on, tokens) => ChargesOf(run[..|run| - 1]) + [Charge(key, on, tokens)]
      case Checked(_, _) => ChargesOf(run[..|run| - 1])
  }

  lemma {:induction false} RunAccounts(run: seq<Event>, limits: map<string, Limits>)
    ensures Accounts(After(run, limits).daily, After(run, limits).monthly, ChargesOf(run))
  {
    if run != [] {
      RunAccounts(run[..|run| - 1], limits);
      match run[|run| - 1]
      case Finished(key, on, tokens) =>
        var s := After(run[..|run| - 1], limits);
        AccountsGrow(s.daily, s.monthly, ChargesOf(run[..|run| - 1]), Charge(key, on, tokens));
      case Checked(_, _) =>
    }
  }

  // In every run, a checked request is let in exactly if what the key's finished requests
  // were charged on that day, and in that month, is below each limit the key has.
  lemma LetInExactlyWhen(run: seq<Event>, limits: map<string, Limits>, key: string, on: Date)
    ensures var before, after := After(run, limits).inFlight, After(run + [Checked(key, on)], limits).inFlight;
            var was, becomes := if key in before then before[key] else 0, if key in after then after[key] else 0;
            var fits := key in limits ==>
              && (limits[key].daily.Some? ==> SpentOn(ChargesOf(run), key, on) < limits[key].daily.value)
              && (limits[key].monthly.Some? ==> SpentIn(ChargesOf(run), key, on.year, on.month) < limits[key].monthly.value);
            && (becomes == was + 1 <==> fits)
            && (becomes == was <==> !fits)
  {
    RunAccounts(run, limits);
    assert (run + [Checked(key, on)])[..|run|] == run;
    var s := After(run, limits);
    assert Used(s.daily, (key, on)) == SpentOn(ChargesOf(run), key, on);
    assert Used(s.monthly, (key, on.Month())) == SpentIn(ChargesOf(run), key, on.Month().year, on.Month().month);
  }

  // Checking charges nothing, and finishing ends one request of the key and no other's.
  lemma FinishingFrees(run: seq<Event>, limits: map<string, Limits>, key: string, on: Date, tokens: int, other: string)
    ensures var before, after := After(run, limits).inFlight, After(run + [Finished(key, on, tokens)], limits).inFlight;
            var was, becomes := if other in before then before[other] else 0, if other in after then after[other] else 0;
            becomes == if other == key && was > 0 then was - 1 else was
  {
    assert (run + [Finished(key, on, tokens)])[..|run|] == run;
  }

  // The runs the bound is about: time does not go back, only requests in flight finish, and
  // for `key` at most n are ever in flight and each costs at most c.
  ghost predicate Admissible(run: seq<Event>, limits: map<string, Limits>, key: string, n: nat, c: nat) {
    run != [] ==>
      var init, e := run[..|run| - 1], run[|run| - 1];
      && Admissible(init, limits, key, n, c)
      && e.on.Valid()
      && (init != [] ==> init[|init| - 1].on.NotAfter(e.on))
      && (e.Finished? && e.key == key ==> Used(After(init, limits).inFlight, key) > 0 && e.tokens <= c)
      && Used(After(run, limits).inFlight, key) <= n
  }

  // What may still be charged to a window that is open now: what requests in flight can cost.
  ghost predicate Bounded(used: nat, inFlight: nat, limit: nat, n: nat, c: nat) {
    used + inFlight * c <= limit - 1 + n * c
  }

  lemma BoundedStart(limit: nat, n: nat, c: nat)
    requires limit >= 1
    ensures Bounded(0, 0, limit, n, c)
  {
    assert 0 * c == 0 <= n * c;
  }

  // A check that lets a request through, a request that finishes, or neither.
  lemma BoundedStep(used: nat, inFlight: nat, nextUsed: nat, nextInFlight: nat, limit: nat, n: nat, c: nat)
    requires Bounded(used, inFlight, limit, n, c) && nextInFlight <= n
    requires || (nextUsed == used && nextInFlight == inFlight)
             || (nextUsed == used < limit && nextInFlight == inFlight + 1)
             || (used <= nextUsed <= used + c && nextInFlight == inFlight - 1)
    ensures Bounded(nextUsed, nextInFlight, limit, n, c) && nextUsed <= limit - 1 + n * c
  {
    assert n * c == (n - nextInFlight) * c + nextInFlight * c;
    if nextInFlight == inFlight - 1 {
      assert inFlight * c == nextInFlight * c + c;
    }
  }

  lemma {:induction false} DailyOvershoot(run: seq<Event>, limits: map<string, Limits>, key: string, limit: nat, n: nat, c: nat, day: Date)
    requires Admissible(run, limits, key, n, c)
    requires key in limits && limits[key].daily == Some(limit) && limit >= 1
    ensures Used(After(run, limits).daily, (key, day)) <= limit - 1 + n * c
    ensures run == [] || !day.NotAfter(run[|run| - 1].on) ==> Used(After(run, limits).daily, (key, day)) == 0
    ensures run == [] || run[|run| - 1].on.NotAfter(day) ==>
              Bounded(Used(After(run, limits).daily, (key, day)), Used(After(run, limits).inFlight, key), limit, n, c)
  {
    hide Bounded;
    BoundedStart(limit, n, c);
    assert 0 <= n * c;
    if run != [] {
      var init, e := run[..|run| - 1], run[|run| - 1];
      DailyOvershoot(init, limits, key, limit, n, c, day);
      var before, after := After(init, limits), After(run, limits);
      if e.on.NotAfter(day) {
        BoundedStep(Used(before.daily, (key, day)), Used(before.inFlight, key),
                    Used(after.daily, (key, day)), Used(after.inFlight, key), limit, n, c);
      }
    }
  }

  lemma {:induction false} MonthlyOvershoot(run: seq<Event>, limits: map<string, Limits>, key: string, limit: nat, n: nat, c: nat, month: MonthKey)
    requires Admissible(run, limits, key, n, c)
    requires key in limits && limits[key].monthly == Some(limit) && limit >= 1
    ensures Used(After(run, limits).monthly, (key, month)) <= limit - 1 + n * c
    ensures run == [] || !Date(month.year, month.month, 1).NotAfter(run[|run| - 1].on) ==> Used(After(run, limits).monthly, (key, month)) == 0
    ensures run == [] || run[|run| - 1].on.NotAfter(Date(month.year, month.month, 31)) ==>
              Bounded(Used(After(run, limits).monthly, (key, month)), Used(After(run, limits).inFlight, key), limit, n, c)
  {
    hide Bounded;
    BoundedStart(limit, n, c);
    assert 0 <= n * c;
    if run != [] {
      var init, e := run[..|run| - 1], run[|run| - 1];
      MonthlyOvershoot(init, limits, key, limit, n, c, month);
      var before, after := After(init, limits), After(run, limits);
      if e.on.NotAfter(Date(month.year, month.month, 31)) {
        BoundedStep(Used(before.monthly, (key, month)), Used(before.inFlight, key),
                    Used(after.monthly, (key, month)), Used(after.inFlight, key), limit, n, c);
      }
    }
  }

  // Tokens used on the first `days` days of a month.
  function DaysTotal(daily: Daily, key: string, month: MonthKey, days: nat): nat {
    if days == 0 then 0
    else DaysTotal(daily, key, month, days - 1) + Used(daily, (key, Date(month.year, month.month, days)))
  }

  lemma {:induction false} DaysTotalCharged(daily: Daily, key: string, month: MonthKey, days: nat, who: string, on: Date, tokens: int)
    ensures DaysTotal(Charged(daily, (who, on), tokens), key, month, days)
         == DaysTotal(daily, key, month, days)
            + (if who == key && on.Month() == month && 1 <= on.day <= days && tokens > 0 then tokens else 0)
  {
    if days > 0 {
      DaysTotalCharged(daily, key, month, days - 1, who, on, tokens);
    }
  }

  // In every run, each monthly total is the sum of that month's daily totals.
  lemma {:induction false} MonthIsSumOfDays(run: seq<Event>, limits: map<string, Limits>, key: string, month: MonthKey)
    requires forall e <- run :: e.on.Valid()
    ensures Used(After(run, limits).monthly, (key, month)) == DaysTotal(After(run, limits).daily, key, month, 31)
  {
    if run == [] {
      NoDays(key, month, 31);
    } else {
      var init, e := run[..|run| - 1], run[|run| - 1];
      assert e in run;
      MonthIsSumOfDays(init, limits, key, month);
      if e.Finished? {
        DaysTotalCharged(After(init, limits).daily, key, month, 31, e.key, e.on, e.tokens);
      }
    }
  }

  lemma {:induction false} NoDays(key: string, month: MonthKey, days: nat)
    ensures DaysTotal(map[], key, month, days) == 0
  {
    if days > 0 {
      NoDays(key, month, days - 1);
    }
  }
}
