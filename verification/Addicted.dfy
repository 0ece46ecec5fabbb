/**
  The anti-addiction checks of world/addicted.c: a chain of timers that re-arms itself until the
  player has played too long.
 */
module Addicted {
  import opened TimerWheel
  import Modular

  /** Seconds; the configuration reads both from a file. */
  datatype Config = Config(kickTime: nat, notifyTime: nat)

  datatype Notice = NoNotice | Status | Reminder | Limit  // message types 0, 1 and 2

  /** What one check does: kick, or send a notice and check again after step seconds. */
  datatype Outcome = Kick | Again(notice: Notice, sended: nat, step: int)

  const MAX_SEC := MAX_TIMER - 1  // timer_max_sec

  function Min(a: int, b: int): int {
    if a < b then a else b
  }

  /** checkPlayer for a player who is online: played counts the seconds of all sessions, online those of
      this session, and sended the notices sent so far. */
  function Check(cfg: Config, played: nat, online: nat, sended: nat): Outcome
    requires cfg.notifyTime > 0
  {
    if played >= cfg.kickTime + 3 then Kick
    else
      var kind := if played >= cfg.kickTime then Limit
                  else if played % cfg.notifyTime == 0 then Reminder else Status;
      var quiet := kind == Status && sended == 0 && online < 60;
      var sended' := if quiet then sended else sended + 1;
      var secKick := cfg.kickTime - played + 5;
      var secNotify := cfg.notifyTime - played % cfg.notifyTime;
      var soon := if sended' == 0 then Min(60 - online, secNotify) else secNotify;
      Again(if quiet then NoNotice else kind, sended', Min(Min(soon, secKick), MAX_SEC))
  }

  /** The next check is at least a second and at most 3599 seconds away, and it overshoots neither the next
      reminder nor the limit by more than five seconds. */
  lemma StepInRange(cfg: Config, played: nat, online: nat, sended: nat)
    requires cfg.notifyTime > 0 && played < cfg.kickTime + 3
    ensures var c := Check(cfg, played, online, sended);
            && c.Again? && 1 <= c.step <= 3599
            && played + c.step <= cfg.kickTime + 5
            && c.step <= cfg.notifyTime - played % cfg.notifyTime
  {
    assert played % cfg.notifyTime < cfg.notifyTime;
  }

  /** After d seconds there is a reason to look at the player again: a reminder is due, the first minute of the
      session is over and nothing was sent yet, the limit was passed five seconds ago, or a timer can reach no further. */
  ghost predicate Occasion(cfg: Config, played: nat, online: nat, unsent: bool, d: int)
    requires cfg.notifyTime > 0
  {
    || (d > 0 && (played + d) % cfg.notifyTime == 0)
    || (unsent && online + d == 60)
    || played + d == cfg.kickTime + 5
    || d == 3599
  }

  ghost predicate Earliest(cfg: Config, played: nat, online: nat, unsent: bool, step: int)
    requires cfg.notifyTime > 0
  {
    Occasion(cfg, played, online, unsent, step) && forall d :: Occasion(cfg, played, online, unsent, d) ==> step <= d
  }

  /** Which notice a check sends, and that the next check comes at the earliest occasion. */
  lemma CheckExactly(cfg: Config, played: nat, online: nat, sended: nat)
    requires cfg.notifyTime > 0
    ensures var c := Check(cfg, played, online, sended);
            && (c.Kick? <==> played >= cfg.kickTime + 3)
            && (c.Again? ==>
                && (c.notice == Limit <==> played >= cfg.kickTime)
                && (c.notice == Reminder <==> played < cfg.kickTime && played % cfg.notifyTime == 0)
                && (c.notice == NoNotice <==> played < cfg.kickTime && played % cfg.notifyTime != 0 && sended == 0 && online < 60)
                && c.sended == (if c.notice == NoNotice then 0 else sended + 1)
                && Earliest(cfg, played, online, c.sended == 0, c.step))
  {
    var c, n := Check(cfg, played, online, sended), cfg.notifyTime;
    if c.Again? {
      var unsent := c.sended == 0;
      NextReminder(played, n);
      forall d | Occasion(cfg, played, online, unsent, d) ensures c.step <= d {
        if d > 0 && (played + d) % n == 0 && d < n - played % n { NoReminderBefore(played, n, d); }
      }
    }
  }

  lemma NextReminder(played: nat, n: nat)
    requires n > 0
    ensures played % n < n && (played + (n - played % n)) % n == 0
  {
    Modular.ModIs(played + (n - played % n), played / n + 1, 0, n);
  }

  lemma NoReminderBefore(played: nat, n: nat, d: nat)
    requires n > 0 && 0 < d < n - played % n
    ensures (played + d) % n != 0
  {
    Modular.ModIs(played + d, played / n, played % n + d, n);
  }

  /** The check runs as the callback of a timer of the wheel, so that the clock stands at its due time: the
      wheel accepts the timer it arms, and comes round to it at its time. */
  lemma RearmIsAccepted(s: Schedule, cfg: Config, played: nat, online: nat, sended: nat)
    requires Firing(s) && cfg.notifyTime > 0 && played < cfg.kickTime + 3
    ensures var step := Check(cfg, played, online, sended).step;
            && s.next + step >= 0
            && var x, t := Timer(|s.armed|, s.next + step), Do(s, Arm(s.next + step));
               x in t.pending && Time(t.late, x) == s.next + step
  {
    StepInRange(cfg, played, online, sended);
    NewTimer(s, Timer(|s.armed|, s.next + Check(cfg, played, online, sended).step));
  }

  datatype Visit = Visit(played: nat, outcome: Outcome)

  /** All checks from one on, while the player stays online; it ends with the kick. */
  function Chain(cfg: Config, played: nat, online: nat, sended: nat): (visits: seq<Visit>)
    requires cfg.notifyTime > 0
    ensures visits != [] && visits[0].played == played
    decreases cfg.kickTime + 3 - played
  {
    var c := Check(cfg, played, online, sended);
    if c.Kick? then [Visit(played, c)]
    else
      StepInRange(cfg, played, online, sended);
      [Visit(played, c)] + Chain(cfg, played + c.step, online + c.step, c.sended)
  }

  /** The chain ends, with the one and only kick, and that kick comes three to five seconds after the limit
      whenever the first check came before it. */
  lemma {:induction false} ChainEndsInKick(cfg: Config, played: nat, online: nat, sended: nat)
    requires cfg.notifyTime > 0
    ensures var v := Chain(cfg, played, online, sended);
            && v[|v| - 1].outcome.Kick?
            && (forall i :: 0 <= i < |v| - 1 ==> v[i].outcome.Again? && 1 <= v[i].outcome.step <= 3599
                                                 && v[i + 1].played == v[i].played + v[i].outcome.step)
            && (played < cfg.kickTime + 3 ==> cfg.kickTime + 3 <= v[|v| - 1].played <= cfg.kickTime + 5)
    decreases cfg.kickTime + 3 - played
  {
    hide Check, Earliest;
    CheckExactly(cfg, played, online, sended);
    var c := Check(cfg, played, online, sended);
    if c.Again? {
      StepInRange(cfg, played, online, sended);
      var more := Chain(cfg, played + c.step, online + c.step, c.sended);
      ChainEndsInKick(cfg, played + c.step, online + c.step, c.sended);
      if played + c.step >= cfg.kickTime + 3 {
        CheckExactly(cfg, played + c.step, online + c.step, c.sended);
        assert more == [Visit(played + c.step, Kick)];
      }
      assert Chain(cfg, played, online, sended)[1..] == more;
    }
  }

  /** The next multiple is at the distance that the check computes. */
  lemma NextMultiple(played: nat, q: nat, n: nat)
    requires n > 0 && played < q * n
    ensures played + (n - played % n) <= q * n
  {
    var k := played / n;
    assert played == k * n + played % n;
    if k >= q {
      Monotone(q, k, n);
    } else {
      Monotone(k + 1, q, n);
      assert (k + 1) * n == k * n + n;
    }
  }

  lemma Monotone(a: nat, b: nat, n: nat)
    requires a <= b
    ensures a * n <= b * n
  {
  }

  /** No reminder is skipped: every multiple of notifyTime up to the kick meets a check at exactly that time,
      and the check sends the reminder, or the limit notice once the limit is reached. */
  lemma {:induction false} RemindersAreSent(cfg: Config, played: nat, online: nat, sended: nat, q: nat) returns (i: nat)
    requires cfg.notifyTime > 0 && played <= q * cfg.notifyTime < cfg.kickTime + 3
    ensures var v := Chain(cfg, played, online, sended);
            && i < |v| && v[i].played == q * cfg.notifyTime
            && v[i].outcome.Again?
            && v[i].outcome.notice == if q * cfg.notifyTime >= cfg.kickTime then Limit else Reminder
    decreases cfg.kickTime + 3 - played
  {
    var c, m := Check(cfg, played, online, sended), q * cfg.notifyTime;
    StepInRange(cfg, played, online, sended);
    if played == m {
      MultipleRemainder(q, cfg.notifyTime);
      i := 0;
    } else {
      NextMultiple(played, q, cfg.notifyTime);
      var j := RemindersAreSent(cfg, played + c.step, online + c.step, c.sended, q);
      i := j + 1;
    }
  }

  lemma MultipleRemainder(q: nat, n: nat)
    requires n > 0
    ensures q * n % n == 0
  {
    Modular.ModIs(q * n, q, 0, n);
  }
}
