/**
 Distributed channel access: a backoff that counts down only while the medium has
 been free for long enough, kept lazily.  The code touches the remaining backoff
 only at some notifications; the theorems below say that what it then finds is the
 drawn backoff less the time really spent past the access-granted instants.
 */
module ChannelAccess {
  import opened Prelude

  /** Times in seconds. */
  const MIN_TIME: real := 0.0000000001
  const SLOT_TIME: real := 0.000009

  /** PRECISION_ROUND_TO_ZERO. */
  function RoundToZero(x: real): (r: real)
  {
    if x < MIN_TIME then 0.0 else x
  }

  /** What remains of x, never negative, with rounding. */
  function Remain(x: real): (r: real)
    ensures r >= 0.0 && (r == 0.0 || (r == x && x >= MIN_TIME))
  {
    RoundToZero(Max(x, 0.0))
  }

  /** What the station knows of the medium. */
  datatype Medium = Medium(
    navStart: real, navDuration: real,
    rxStart: real, rxDuration: real, rxEnd: real, rxOk: bool,
    txStart: real, txDuration: real)

  datatype Spaces = Spaces(difs: real, eifs: real)

  /** AIFS and EIFS are positive waits, EIFS the longer one. */
  predicate Proper(p: Spaces) {
    0.0 <= p.difs <= p.eifs
  }

  /** getAccessGrantedStart: from when on the medium may be accessed. */
  function AccessGrantedStart(m: Medium, p: Spaces): (t: real)
    requires Proper(p)
    ensures t >= m.txStart + m.txDuration + p.difs
    ensures t >= m.navStart + m.navDuration + p.difs
    ensures m.rxEnd >= m.rxStart ==> t >= m.rxEnd + if m.rxOk then p.difs else p.eifs
    ensures m.rxEnd < m.rxStart ==> t >= m.rxStart + m.rxDuration + p.difs
  {
    var rx := if m.rxEnd >= m.rxStart then
                if m.rxOk then m.rxEnd + p.difs else m.rxEnd + p.eifs
              else m.rxStart + m.rxDuration + p.difs;
    var tx := m.txStart + m.txDuration + p.difs;
    var nav := m.navStart + m.navDuration + p.difs;
    Max(Max(rx, tx), nav)
  }

  datatype Backoff = Backoff(start: real, left: real)

  /** updateBackoff. */
  function Update(b: Backoff, granted: real, time: real): (r: Backoff)
  {
    if b.left <= 0.0 then b
    else
      var from := Max(b.start, granted);
      if from < time then Backoff(time, Remain(b.left - (time - from))) else b
  }

  /** getDelayUntilAccessGranted. */
  function Delay(b: Backoff, granted: real, time: real): (d: real)
  {
    RoundToZero(Max(granted - time, 0.0) + Update(b, granted, time).left)
  }

  // ---------------------------------------------------------------------
  // Runs
  // ---------------------------------------------------------------------

  datatype Event =
    | Draw(slots: nat)
    | RxStart(duration: real)
    | RxEnd(ok: bool)
    | TxStart(duration: real)
    | NavStart(duration: real)
    | NavContinue(delta: real)
    | Poll

  datatype Timed = Timed(time: real, event: Event)

  /** What a notification does to the medium fields. */
  function Notice(m: Medium, e: Timed): (r: Medium)
  {
    match e.event
    case RxStart(d) => m.(rxStart := e.time, rxDuration := d)
    case RxEnd(ok) => m.(rxEnd := e.time, rxOk := ok)
    case TxStart(d) => m.(txStart := e.time, txDuration := d)
    case NavStart(d) => m.(navStart := e.time, navDuration := d)
    case NavContinue(x) => m.(navDuration := m.navDuration + x)
    case Draw(_) => m
    case Poll => m
  }

  /** Runs the theorems speak of: time does not run backwards, no reception starts at
      the very instant, or before, the last one was reported ended, none is reported
      ended later than announced, and a NAV is continued only while it runs.  A
      reception may never be reported ended, as when a transmission cancels it. */
  ghost predicate Orderly(m: Medium, now: real, e: Timed) {
    && now <= e.time
    && match e.event
       case RxStart(d) => d >= 0.0 && m.rxEnd < e.time
       case RxEnd(_) => m.rxEnd < m.rxStart && e.time <= m.rxStart + m.rxDuration
       case TxStart(d) => d >= 0.0
       case NavStart(d) => d >= 0.0
       case NavContinue(x) => x >= 0.0 && m.navStart + m.navDuration > e.time
       case Draw(_) => true
       case Poll => true
  }

  ghost predicate OrderlyRun(m: Medium, now: real, evs: seq<Timed>)
    decreases |evs|
  {
    evs == [] || (Orderly(m, now, evs[0]) && OrderlyRun(Notice(m, evs[0]), evs[0].time, evs[1..]))
  }

  /** Whether the code brings the backoff up to date before the notification. */
  predicate UpdatesFirst(e: Event) {
    e.RxStart? || e.TxStart? || e.NavStart? || e.Poll?
  }

  /** One notification, on the backoff. */
  function Step(b: Backoff, m: Medium, p: Spaces, e: Timed): (r: Backoff)
    requires Proper(p)
  {
    if e.event.Draw? then Backoff(e.time, e.event.slots as real * SLOT_TIME)
    else if UpdatesFirst(e.event) then Update(b, AccessGrantedStart(m, p), e.time)
    else b
  }

  function Run(b: Backoff, m: Medium, p: Spaces, evs: seq<Timed>): (r: Backoff)
    requires Proper(p)
    decreases |evs|
  {
    if evs == [] then b else Run(Step(b, m, p, evs[0]), Notice(m, evs[0]), p, evs[1..])
  }

  // ---------------------------------------------------------------------
  // The reference: time spent with access granted
  // ---------------------------------------------------------------------

  /** Part of [from, to] that lies past the access-granted instant. */
  function Eligible(from: real, granted: real, to: real): (t: real)
    ensures t >= 0.0
  {
    Max(to - Max(from, granted), 0.0)
  }

  /** Backoff drawn last, and eligible time accumulated since. */
  datatype Account = Account(drawn: real, spent: real)

  function Book(a: Account, m: Medium, p: Spaces, now: real, e: Timed): (r: Account)
    requires Proper(p)
  {
    if e.event.Draw? then Account(e.event.slots as real * SLOT_TIME, 0.0)
    else a.(spent := a.spent + Eligible(now, AccessGrantedStart(m, p), e.time))
  }

  function BookAll(a: Account, m: Medium, p: Spaces, now: real, evs: seq<Timed>): (r: Account)
    requires Proper(p)
    decreases |evs|
  {
    if evs == [] then a
    else BookAll(Book(a, m, p, now, evs[0]), Notice(m, evs[0]), p, evs[0].time, evs[1..])
  }

  function NoticeAll(m: Medium, evs: seq<Timed>): (r: Medium)
    decreases |evs|
  {
    if evs == [] then m else NoticeAll(Notice(m, evs[0]), evs[1..])
  }

  function LastTime(now: real, evs: seq<Timed>): (t: real)
  {
    if evs == [] then now else evs[|evs| - 1].time
  }

  // ---------------------------------------------------------------------
  // Conservation
  // ---------------------------------------------------------------------

  /** The books agree with the lazy backoff. */
  ghost predicate Balanced(b: Backoff, a: Account, granted: real, now: real) {
    && b.left == Remain(a.drawn - a.spent)
    && b.start <= now
    && (b.left > 0.0 ==> b.start == now || granted >= now)
  }

  /** Whenever the remaining backoff is asked for, it is the drawn backoff less the
      eligible time, rounded to zero below 1e-10. */
  lemma BalancedObserved(b: Backoff, a: Account, granted: real, now: real, t: real)
    requires Balanced(b, a, granted, now) && now <= t
    ensures Update(b, granted, t).left == Remain(a.drawn - a.spent - Eligible(now, granted, t))
    ensures Balanced(Update(b, granted, t), a.(spent := a.spent + Eligible(now, granted, t)), granted, t)
  {
  }

  lemma StepBalanced(b: Backoff, a: Account, m: Medium, p: Spaces, now: real, e: Timed)
    requires Proper(p) && Orderly(m, now, e) && Balanced(b, a, AccessGrantedStart(m, p), now)
    ensures Balanced(Step(b, m, p, e), Book(a, m, p, now, e), AccessGrantedStart(Notice(m, e), p), e.time)
  {
    var granted := AccessGrantedStart(m, p);
    BalancedObserved(b, a, granted, now, e.time);
    var granted' := AccessGrantedStart(Notice(m, e), p);
    match e.event
    case Draw(_) =>
    case Poll =>
    case _ => assert granted' >= e.time;
  }

  lemma {:induction false} RunBalanced(b: Backoff, a: Account, m: Medium, p: Spaces, now: real, evs: seq<Timed>)
    requires Proper(p) && OrderlyRun(m, now, evs) && Balanced(b, a, AccessGrantedStart(m, p), now)
    ensures Balanced(Run(b, m, p, evs), BookAll(a, m, p, now, evs), AccessGrantedStart(NoticeAll(m, evs), p), LastTime(now, evs))
    decreases |evs|
  {
    if evs != [] {
      StepBalanced(b, a, m, p, now, evs[0]);
      RunBalanced(Step(b, m, p, evs[0]), Book(a, m, p, now, evs[0]), Notice(m, evs[0]), p, evs[0].time, evs[1..]);
    }
  }

  /** From switching on, the remaining backoff found at any later time t is what was
      drawn last, less the time since then past the access-granted instants. */
  lemma BackoffConserved(p: Spaces, evs: seq<Timed>, t: real)
    requires Proper(p) && OrderlyRun(Silent(), 0.0, evs) && LastTime(0.0, evs) <= t
    ensures var m := NoticeAll(Silent(), evs);
            var a := BookAll(Account(0.0, 0.0), Silent(), p, 0.0, evs);
            var granted := AccessGrantedStart(m, p);
            Update(Run(Backoff(0.0, 0.0), Silent(), p, evs), granted, t).left
            == Remain(a.drawn - (a.spent + Eligible(LastTime(0.0, evs), granted, t)))
  {
    RunBalanced(Backoff(0.0, 0.0), Account(0.0, 0.0), Silent(), p, 0.0, evs);
  }

  /** The medium as the constructor leaves it. */
  function Silent(): (m: Medium) {
    Medium(0.0, 0.0, 0.0, 0.0, 0.0, true, 0.0, 0.0)
  }

  /** Remaining backoffs that the code can hold. */
  predicate Rounded(b: Backoff) {
    b.left == 0.0 || b.left >= MIN_TIME
  }

  /** Bringing the backoff up to date on the way changes nothing found later, as long as
      the access-granted instant stays. */
  lemma PollHarmless(b: Backoff, granted: real, t: real, s: real)
    requires Rounded(b) && b.start <= t <= s
    ensures Update(Update(b, granted, t), granted, s).left == Update(b, granted, s).left
    ensures Delay(Update(b, granted, t), granted, s) == Delay(b, granted, s)
  {
  }

  /** A run without its extra updates. */
  function WithoutPolls(evs: seq<Timed>): (r: seq<Timed>)
    decreases |evs|
  {
    if evs == [] then []
    else (if evs[0].event.Poll? then [] else [evs[0]]) + WithoutPolls(evs[1..])
  }

  lemma {:induction false} OrderlySince(m: Medium, since: real, now: real, evs: seq<Timed>)
    requires OrderlyRun(m, now, evs) && since <= now
    ensures OrderlyRun(m, since, evs)
  {
  }

  /** They are no part of what happens to the medium. */
  lemma {:induction false} MediumWithoutPolls(m: Medium, now: real, evs: seq<Timed>)
    requires OrderlyRun(m, now, evs)
    ensures OrderlyRun(m, now, WithoutPolls(evs))
    ensures NoticeAll(m, WithoutPolls(evs)) == NoticeAll(m, evs)
    ensures now <= LastTime(now, WithoutPolls(evs)) <= LastTime(now, evs)
    decreases |evs|
  {
    if evs != [] {
      var e, rest := evs[0], WithoutPolls(evs[1..]);
      MediumWithoutPolls(Notice(m, e), e.time, evs[1..]);
      if e.event.Poll? {
        assert WithoutPolls(evs) == rest;
        OrderlySince(m, now, e.time, rest);
      } else {
        assert WithoutPolls(evs)[1..] == rest;
      }
    }
  }

  lemma EligibleAdds(granted: real, a: real, b: real, c: real)
    requires a <= b <= c
    ensures Eligible(a, granted, b) + Eligible(b, granted, c) == Eligible(a, granted, c)
  {
  }

  /** The account at t, when `evs` have been booked since `now`. */
  function BooksAt(a: Account, m: Medium, p: Spaces, now: real, evs: seq<Timed>, t: real): (r: Account)
    requires Proper(p)
    decreases |evs|
  {
    if evs == [] then a.(spent := a.spent + Eligible(now, AccessGrantedStart(m, p), t))
    else BooksAt(Book(a, m, p, now, evs[0]), Notice(m, evs[0]), p, evs[0].time, evs[1..], t)
  }

  lemma {:induction false} BooksAtIs(a: Account, m: Medium, p: Spaces, now: real, evs: seq<Timed>, t: real)
    requires Proper(p)
    ensures BooksAt(a, m, p, now, evs, t)
         == var b := BookAll(a, m, p, now, evs);
            b.(spent := b.spent + Eligible(LastTime(now, evs), AccessGrantedStart(NoticeAll(m, evs), p), t))
    decreases |evs|
  {
    hide AccessGrantedStart, Eligible, Book;
    if evs != [] {
      BooksAtIs(Book(a, m, p, now, evs[0]), Notice(m, evs[0]), p, evs[0].time, evs[1..], t);
    }
  }

  /** Booking up to `now` first, or only later, makes no difference. */
  lemma BookLater(a: Account, m: Medium, p: Spaces, since: real, now: real, evs: seq<Timed>, t: real)
    requires Proper(p) && since <= now <= t && (evs != [] ==> now <= evs[0].time)
    ensures BooksAt(a.(spent := a.spent + Eligible(since, AccessGrantedStart(m, p), now)), m, p, now, evs, t)
         == BooksAt(a, m, p, since, evs, t)
  {
    hide AccessGrantedStart, Eligible;
    EligibleAdds(AccessGrantedStart(m, p), since, now, if evs == [] then t else evs[0].time);
  }

  lemma FirstIsLater(m: Medium, now: real, evs: seq<Timed>)
    requires OrderlyRun(m, now, evs)
    ensures evs != [] ==> now <= evs[0].time && LastTime(now, evs) == LastTime(evs[0].time, evs[1..])
  {
  }

  lemma {:induction false} BooksWithoutPolls(a: Account, m: Medium, p: Spaces, now: real, evs: seq<Timed>, t: real)
    requires Proper(p) && OrderlyRun(m, now, evs) && LastTime(now, evs) <= t
    ensures BooksAt(a, m, p, now, WithoutPolls(evs), t) == BooksAt(a, m, p, now, evs, t)
    decreases |evs|
  {
    hide AccessGrantedStart, Eligible, Orderly, LastTime, Notice, Book;
    if evs != [] {
      var e, rest := evs[0], WithoutPolls(evs[1..]);
      FirstIsLater(m, now, evs);
      BooksWithoutPolls(Book(a, m, p, now, e), Notice(m, e), p, e.time, evs[1..], t);
      if e.event.Poll? {
        assert WithoutPolls(evs) == rest;
        PollBooked(a, m, p, now, e);
        MediumWithoutPolls(m, e.time, evs[1..]);
        FirstIsLater(m, e.time, rest);
        BookLater(a, m, p, now, e.time, rest, t);
      } else {
        assert WithoutPolls(evs)[1..] == rest;
      }
    }
  }

  lemma PollBooked(a: Account, m: Medium, p: Spaces, now: real, e: Timed)
    requires Proper(p) && e.event.Poll?
    ensures Notice(m, e) == m
    ensures Book(a, m, p, now, e) == a.(spent := a.spent + Eligible(now, AccessGrantedStart(m, p), e.time))
  {
  }

  /** Extra updates at any moments of a run change neither the backoff nor the delay
      found later. */
  lemma PollsDoNotMatter(p: Spaces, evs: seq<Timed>, t: real)
    requires Proper(p) && OrderlyRun(Silent(), 0.0, evs) && LastTime(0.0, evs) <= t
    ensures var granted := AccessGrantedStart(NoticeAll(Silent(), evs), p);
            var b := Run(Backoff(0.0, 0.0), Silent(), p, evs);
            var c := Run(Backoff(0.0, 0.0), Silent(), p, WithoutPolls(evs));
            Update(b, granted, t).left == Update(c, granted, t).left && Delay(b, granted, t) == Delay(c, granted, t)
  {
    hide AccessGrantedStart, BooksAt, Eligible, Update;
    var none := Account(0.0, 0.0);
    MediumWithoutPolls(Silent(), 0.0, evs);
    BooksWithoutPolls(none, Silent(), p, 0.0, evs, t);
    BooksAtIs(none, Silent(), p, 0.0, evs, t);
    BooksAtIs(none, Silent(), p, 0.0, WithoutPolls(evs), t);
    BackoffConserved(p, evs, t);
    BackoffConserved(p, WithoutPolls(evs), t);
  }

  /** So two runs that differ only in such updates leave the same medium, backoff and
      delay to be found. */
  lemma SameButForPolls(p: Spaces, evs: seq<Timed>, fs: seq<Timed>, t: real)
    requires Proper(p) && OrderlyRun(Silent(), 0.0, evs) && OrderlyRun(Silent(), 0.0, fs)
    requires LastTime(0.0, evs) <= t && LastTime(0.0, fs) <= t && WithoutPolls(evs) == WithoutPolls(fs)
    ensures NoticeAll(Silent(), evs) == NoticeAll(Silent(), fs)
    ensures var granted := AccessGrantedStart(NoticeAll(Silent(), evs), p);
            var b := Run(Backoff(0.0, 0.0), Silent(), p, evs);
            var c := Run(Backoff(0.0, 0.0), Silent(), p, fs);
            Update(b, granted, t).left == Update(c, granted, t).left && Delay(b, granted, t) == Delay(c, granted, t)
  {
    hide AccessGrantedStart, Update, Delay;
    MediumWithoutPolls(Silent(), 0.0, evs);
    MediumWithoutPolls(Silent(), 0.0, fs);
    PollsDoNotMatter(p, evs, t);
    PollsDoNotMatter(p, fs, t);
  }

  /** In particular one update put in anywhere. */
  lemma {:induction false} PollPutIn(x: seq<Timed>, y: seq<Timed>, t: real)
    ensures WithoutPolls(x + [Timed(t, Poll)] + y) == WithoutPolls(x + y)
    decreases |x|
  {
    var z := [Timed(t, Poll)];
    if x == [] {
      assert x + z + y == z + y && (z + y)[1..] == y && x + y == y;
    } else {
      assert (x + z + y)[1..] == x[1..] + z + y && (x + y)[1..] == x[1..] + y;
      PollPutIn(x[1..], y, t);
    }
  }

  /** The delay counts down with the clock, and is zero when it has run out. */
  lemma DelayCountsDown(b: Backoff, granted: real, t: real, s: real)
    requires Rounded(b) && b.start <= t <= s
    ensures Delay(b, granted, s) == Remain(Delay(b, granted, t) - (s - t))
    ensures s >= t + Delay(b, granted, t) ==> Delay(b, granted, s) == 0.0
  {
    var u := Update(b, granted, t);
    var v := Update(b, granted, s);
    if b.left <= 0.0 {
    } else if granted >= s {
      assert u.left == b.left && v.left == b.left;
    } else {
      assert v.left == Remain(b.left - (s - Max(b.start, granted)));
    }
  }

  /** No delay means no backoff left, and every wait over up to the rounding. */
  lemma NoDelayIsSafe(b: Backoff, m: Medium, p: Spaces, t: real)
    requires Proper(p) && Rounded(b) && Delay(b, AccessGrantedStart(m, p), t) == 0.0
    ensures Update(b, AccessGrantedStart(m, p), t).left == 0.0
    ensures t > m.txStart + m.txDuration + p.difs - MIN_TIME
    ensures t > m.navStart + m.navDuration + p.difs - MIN_TIME
    ensures m.rxEnd >= m.rxStart ==> t > m.rxEnd + (if m.rxOk then p.difs else p.eifs) - MIN_TIME
    ensures m.rxEnd < m.rxStart ==> t > m.rxStart + m.rxDuration + p.difs - MIN_TIME
  {
  }

  /** The wait covers a reception that starts at t exactly when the previous one was
      reported ended strictly before, or something else happens to make it as long. */
  lemma ReceptionCovered(m: Medium, p: Spaces, t: real, d: real)
    requires Proper(p)
    ensures AccessGrantedStart(Notice(m, Timed(t, RxStart(d))), p) >= t + d
       <==> (|| m.rxEnd < t
             || m.rxEnd + (if m.rxOk then p.difs else p.eifs) >= t + d
             || m.txStart + m.txDuration + p.difs >= t + d
             || m.navStart + m.navDuration + p.difs >= t + d)
  {
  }

  // ---------------------------------------------------------------------
  // What each event does to the wait
  // ---------------------------------------------------------------------

  /** t is the latest of three instants. */
  predicate Latest(t: real, a: real, b: real, c: real) {
    t >= a && t >= b && t >= c && (t == a || t == b || t == c)
  }

  /** Access is granted from the end of the last of three waits on: DIFS after the latest
      transmission, DIFS after the NAV, and after the latest reception DIFS if it went well
      or still runs, EIFS if it failed. */
  lemma GrantedIsLatest(m: Medium, p: Spaces)
    requires Proper(p)
    ensures var rx := if m.rxEnd < m.rxStart then m.rxStart + m.rxDuration + p.difs
                      else if m.rxOk then m.rxEnd + p.difs else m.rxEnd + p.eifs;
            Latest(AccessGrantedStart(m, p), rx, m.txStart + m.txDuration + p.difs, m.navStart + m.navDuration + p.difs)
  {
  }

  /** A reception that fails at t makes everyone wait for EIFS from t on, a good one for
      DIFS, unless a transmission or the NAV asks for more. */
  lemma WaitAfterRxEnd(m: Medium, p: Spaces, t: real, ok: bool)
    requires Proper(p) && m.rxStart <= t
    ensures Latest(AccessGrantedStart(Notice(m, Timed(t, RxEnd(ok))), p),
                   t + (if ok then p.difs else p.eifs),
                   m.txStart + m.txDuration + p.difs, m.navStart + m.navDuration + p.difs)
  {
  }

  /** A reception that starts at t, after the last one ended, until DIFS past its end. */
  lemma WaitAfterRxStart(m: Medium, p: Spaces, t: real, d: real)
    requires Proper(p) && m.rxEnd < t
    ensures Latest(AccessGrantedStart(Notice(m, Timed(t, RxStart(d))), p),
                   t + d + p.difs, m.txStart + m.txDuration + p.difs, m.navStart + m.navDuration + p.difs)
  {
  }

  /** A transmission and a NAV from t on until DIFS past their ends, and no longer unless
      another wait was longer already. */
  lemma WaitAfterTxOrNav(m: Medium, p: Spaces, t: real, d: real)
    requires Proper(p)
    ensures var before := AccessGrantedStart(m, p);
            var tx := AccessGrantedStart(Notice(m, Timed(t, TxStart(d))), p);
            var nav := AccessGrantedStart(Notice(m, Timed(t, NavStart(d))), p);
            && t + d + p.difs <= tx <= Max(before, t + d + p.difs)
            && t + d + p.difs <= nav <= Max(before, t + d + p.difs)
    ensures m.txStart + m.txDuration <= t + d ==>
              AccessGrantedStart(Notice(m, Timed(t, TxStart(d))), p) == Max(AccessGrantedStart(m, p), t + d + p.difs)
    ensures m.navStart + m.navDuration <= t + d ==>
              AccessGrantedStart(Notice(m, Timed(t, NavStart(d))), p) == Max(AccessGrantedStart(m, p), t + d + p.difs)
  {
  }

  /** A NAV continued by x lasts x longer. */
  lemma WaitAfterNavContinue(m: Medium, p: Spaces, t: real, x: real)
    requires Proper(p) && x >= 0.0
    ensures AccessGrantedStart(Notice(m, Timed(t, NavContinue(x))), p)
         == Max(AccessGrantedStart(m, p), m.navStart + m.navDuration + x + p.difs)
  {
  }

  /** The delay found at the end of a reception: what is left of the backoff, untouched,
      after EIFS if the reception failed and after DIFS if it did not. */
  lemma DelayAfterRxEnd(b: Backoff, m: Medium, p: Spaces, t: real, ok: bool)
    requires Proper(p) && Rounded(b) && b.start <= t && m.rxStart <= t
    requires m.txStart + m.txDuration <= t && m.navStart + m.navDuration <= t
    ensures Delay(b, AccessGrantedStart(Notice(m, Timed(t, RxEnd(ok))), p), t)
         == RoundToZero((if ok then p.difs else p.eifs) + b.left)
  {
    WaitAfterRxEnd(m, p, t, ok);
  }

  /** Whatever else goes on, never less than that, and none of it counts as backoff. */
  lemma DelayAtLeast(b: Backoff, m: Medium, p: Spaces, t: real, ok: bool, d: real)
    requires Proper(p) && Rounded(b) && b.start <= t && m.rxStart <= t && d >= 0.0
    ensures Delay(b, AccessGrantedStart(Notice(m, Timed(t, RxEnd(ok))), p), t)
         >= RoundToZero((if ok then p.difs else p.eifs) + b.left)
    ensures Delay(b, AccessGrantedStart(Notice(m, Timed(t, TxStart(d))), p), t) >= RoundToZero(d + p.difs + b.left)
    ensures Delay(b, AccessGrantedStart(Notice(m, Timed(t, NavStart(d))), p), t) >= RoundToZero(d + p.difs + b.left)
    ensures m.rxEnd < t ==>
              Delay(b, AccessGrantedStart(Notice(m, Timed(t, RxStart(d))), p), t) >= RoundToZero(d + p.difs + b.left)
  {
    hide AccessGrantedStart;
    WaitAfterRxEnd(m, p, t, ok);
    WaitAfterTxOrNav(m, p, t, d);
    if m.rxEnd < t {
      WaitAfterRxStart(m, p, t, d);
    }
  }

  /** A drawn number of slots is a backoff of nine microseconds each. */
  lemma DrawnSlots(b: Backoff, m: Medium, p: Spaces, t: real, slots: nat)
    requires Proper(p)
    ensures Step(b, m, p, Timed(t, Draw(slots))) == Backoff(t, slots as real * 0.000009)
  {
  }

  /** The contention window after one more failed access. */
  function Widened(cw: nat, cwMax: nat): (r: nat)
  {
    if 2 * cw > cwMax then cwMax else 2 * cw
  }

  /** The window after k failures since it was last the smallest. */
  function WidenedTimes(cwMin: nat, cwMax: nat, k: nat): (r: nat)
  {
    if k == 0 then cwMin else Widened(WidenedTimes(cwMin, cwMax, k - 1), cwMax)
  }

  /** It is the smallest window doubled k times, up to the largest. */
  lemma {:induction false} WindowAfterFailures(cwMin: nat, cwMax: nat, k: nat)
    requires cwMin <= cwMax
    ensures WidenedTimes(cwMin, cwMax, k) == NatMin(cwMin * Power2(k), cwMax)
  {
    hide Power2;
    DoubledTimes(cwMin, k);
    if k > 0 {
      WindowAfterFailures(cwMin, cwMax, k - 1);
    }
  }

  lemma DoubledTimes(cw: nat, k: nat)
    ensures cw * Power2(0) == cw && (k > 0 ==> cw * Power2(k) == 2 * (cw * Power2(k - 1)))
  {
    if k > 0 {
      MulAssociates(cw, 2, Power2(k - 1));
    }
  }

  lemma MulAssociates(a: nat, b: nat, c: nat)
    ensures a * (b * c) == b * (a * c)
  {
  }

  // ---------------------------------------------------------------------
  // The object
  // ---------------------------------------------------------------------

  datatype Action = Nothing | StartTimer(delay: real) | Grant

  class Dcf {
    const p: Spaces
    const cwMin: nat
    const cwMax: nat

    var backoffStart: real
    var backoffLeft: real
    var lastNavStart: real
    var lastNavDuration: real
    var lastRxStart: real
    var lastRxDuration: real
    var lastRxReceivedOk: bool
    var lastRxEnd: real
    var lastTxStart: real
    var lastTxDuration: real
    var timerRunning: bool
    var cw: nat

    ghost predicate Valid()
      reads this
    {
      Proper(p) && cwMin <= cw <= cwMax && Rounded(B())
    }

    ghost function B(): Backoff
      reads this
    {
      Backoff(backoffStart, backoffLeft)
    }

    ghost function M(): Medium
      reads this
    {
      Medium(lastNavStart, lastNavDuration, lastRxStart, lastRxDuration, lastRxEnd, lastRxReceivedOk, lastTxStart, lastTxDuration)
    }

    constructor (p: Spaces, cwMin: nat, cwMax: nat)
      requires Proper(p) && cwMin <= cwMax
      ensures Valid() && B() == Backoff(0.0, 0.0) && M() == Silent() && !timerRunning && cw == cwMin
      ensures this.p == p && this.cwMin == cwMin && this.cwMax == cwMax
    {
      this.p, this.cwMin, this.cwMax := p, cwMin, cwMax;
      backoffStart, backoffLeft := 0.0, 0.0;
      lastNavStart, lastNavDuration := 0.0, 0.0;
      lastRxStart, lastRxDuration, lastRxReceivedOk, lastRxEnd := 0.0, 0.0, true, 0.0;
      lastTxStart, lastTxDuration := 0.0, 0.0;
      timerRunning, cw := false, cwMin;
    }

    method GetAccessGrantedStart() returns (t: real)
      requires Valid()
      ensures t == AccessGrantedStart(M(), p)
    {
      var rx;
      if lastRxEnd >= lastRxStart {
        rx := if lastRxReceivedOk then lastRxEnd + p.difs else lastRxEnd + p.eifs;
      } else {
        rx := lastRxStart + lastRxDuration + p.difs;
      }
      t := Max(Max(rx, lastTxStart + lastTxDuration + p.difs), lastNavStart + lastNavDuration + p.difs);
    }

    method UpdateBackoff(time: real)
      requires Valid() && (backoffLeft > 0.0 ==> backoffStart <= time)
      modifies `backoffStart, `backoffLeft
      ensures Valid() && B() == Update(old(B()), AccessGrantedStart(M(), p), time)
    {
      if backoffLeft <= 0.0 {
        return;
      }
      var granted := GetAccessGrantedStart();
      var mostRecentEvent := Max(backoffStart, granted);
      if mostRecentEvent < time {
        backoffLeft := backoffLeft - (time - mostRecentEvent);
        backoffLeft := Max(backoffLeft, 0.0);
        backoffLeft := RoundToZero(backoffLeft);
        backoffStart := time;
      }
    }

    method GetDelay(time: real) returns (d: real)
      requires Valid() && (backoffLeft > 0.0 ==> backoffStart <= time)
      modifies `backoffStart, `backoffLeft
      ensures Valid() && B() == Update(old(B()), AccessGrantedStart(M(), p), time)
      ensures d == Delay(old(B()), AccessGrantedStart(M(), p), time) >= 0.0
    {
      var granted := GetAccessGrantedStart();
      d := Max(granted - time, 0.0);
      UpdateBackoff(time);
      d := RoundToZero(d + backoffLeft);
    }

    /** The medium is clear for access: nothing left of the backoff, every wait over. */
    ghost predicate Clear(time: real)
      requires Proper(p)
      reads this
    {
      Delay(B(), AccessGrantedStart(M(), p), time) == 0.0
    }

    /** startBackoff with a drawn number of slots. */
    method StartBackoff(now: real, slots: nat, accessNeeded: bool) returns (act: Action)
      requires Valid() && backoffStart <= now && slots <= cw
      modifies `backoffStart, `backoffLeft, `timerRunning
      ensures Valid()
      ensures B() == Update(Step(old(B()), M(), p, Timed(now, Draw(slots))), AccessGrantedStart(M(), p), now)
      ensures act.Grant? <==> accessNeeded && !old(timerRunning) && Clear(now)
      ensures act.StartTimer? <==> timerRunning && !old(timerRunning)
      ensures act.Nothing? <==> !accessNeeded || old(timerRunning)
      ensures act.StartTimer? ==> act.delay == Delay(B(), AccessGrantedStart(M(), p), now) > 0.0
    {
      backoffStart, backoffLeft := now, slots as real * SLOT_TIME;
      assert slots > 0 ==> slots as real >= 1.0;
      if accessNeeded && !timerRunning {
        var delay := GetDelay(now);
        if delay > 0.0 {
          timerRunning := true;
          return StartTimer(delay);
        }
        return Grant;
      }
      return Nothing;
    }

    method RequestAccess(now: real, accessing: bool, phyIdle: bool, accessNeeded: bool, slots: nat) returns (act: Action)
      requires Valid() && backoffStart <= now && slots <= cw
      modifies `backoffStart, `backoffLeft, `timerRunning
      ensures Valid()
      ensures act.Grant? ==> Clear(now) && !old(timerRunning) && !accessing
      ensures act.StartTimer? ==> act.delay == Delay(B(), AccessGrantedStart(M(), p), now) > 0.0 && timerRunning
      ensures accessing || old(timerRunning) ==> act.Nothing? && timerRunning == old(timerRunning)
      ensures var u := Update(old(B()), AccessGrantedStart(M(), p), now);
        if accessing || old(timerRunning) || phyIdle || u.left > 0.0 then B() == u
        else B() == Update(Backoff(now, slots as real * SLOT_TIME), AccessGrantedStart(M(), p), now)
      ensures !accessing && !old(timerRunning) && (phyIdle || accessNeeded) ==> (act.Grant? <==> Clear(now)) && !act.Nothing?
    {
      hide AccessGrantedStart;
      var delay := GetDelay(now);
      if accessing {
        return Nothing;
      } else if timerRunning {
        return Nothing;
      }
      UpdateBackoff(now);
      if backoffLeft > 0.0 {
        timerRunning := true;
        return StartTimer(delay);
      } else if !phyIdle {
        act := StartBackoff(now, slots, accessNeeded);
      } else if delay > 0.0 {
        timerRunning := true;
        return StartTimer(delay);
      } else {
        return Grant;
      }
    }

    /** accessTimeout: the timer has just expired. */
    method AccessTimeout(now: real) returns (act: Action)
      requires Valid() && backoffStart <= now
      modifies `backoffStart, `backoffLeft, `timerRunning
      ensures Valid() && B() == Update(old(B()), AccessGrantedStart(M(), p), now)
      ensures act.Grant? <==> Clear(now)
      ensures !act.Grant? ==> act == StartTimer(Delay(B(), AccessGrantedStart(M(), p), now)) && timerRunning
    {
      timerRunning := false;
      var delay := GetDelay(now);
      if delay > 0.0 {
        timerRunning := true;
        return StartTimer(delay);
      }
      return Grant;
    }

    method NotifyRxStart(now: real, duration: real)
      requires Valid() && (backoffLeft > 0.0 ==> backoffStart <= now)
      modifies `backoffStart, `backoffLeft, `lastRxStart, `lastRxDuration
      ensures Valid() && Moved(old(B()), old(M()), Timed(now, RxStart(duration)))
      ensures old(lastRxEnd) < now ==> AccessGrantedStart(M(), p) >= now + duration + p.difs
    {
      UpdateBackoff(now);
      lastRxStart, lastRxDuration := now, duration;
    }

    /** The object did exactly what the event does to backoff and medium. */
    ghost predicate Moved(b: Backoff, m: Medium, e: Timed)
      requires Proper(p)
      reads this
    {
      B() == Step(b, m, p, e) && M() == Notice(m, e)
    }

    method NotifyRxEnd(now: real, ok: bool)
      requires Valid()
      modifies `lastRxEnd, `lastRxReceivedOk
      ensures Valid() && Moved(old(B()), old(M()), Timed(now, RxEnd(ok)))
      ensures lastRxStart <= now ==> AccessGrantedStart(M(), p) >= now + if ok then p.difs else p.eifs
      ensures lastRxStart <= now && lastTxStart + lastTxDuration <= now && lastNavStart + lastNavDuration <= now ==>
                AccessGrantedStart(M(), p) == now + if ok then p.difs else p.eifs
    {
      lastRxEnd, lastRxReceivedOk := now, ok;
    }

    method NotifyTxStart(now: real, duration: real)
      requires Valid() && (backoffLeft > 0.0 ==> backoffStart <= now)
      modifies `backoffStart, `backoffLeft, `lastTxStart, `lastTxDuration
      ensures Valid() && Moved(old(B()), old(M()), Timed(now, TxStart(duration)))
      ensures AccessGrantedStart(M(), p) >= now + duration + p.difs
    {
      UpdateBackoff(now);
      lastTxStart, lastTxDuration := now, duration;
    }

    method NavStarts(now: real, duration: real)
      requires Valid() && (backoffLeft > 0.0 ==> backoffStart <= now)
      modifies `backoffStart, `backoffLeft, `lastNavStart, `lastNavDuration
      ensures Valid() && Moved(old(B()), old(M()), Timed(now, NavStart(duration)))
      ensures AccessGrantedStart(M(), p) >= now + duration + p.difs
    {
      UpdateBackoff(now);
      lastNavStart, lastNavDuration := now, duration;
    }

    method NavContinues(now: real, delta: real)
      requires Valid()
      modifies `lastNavDuration
      ensures Valid() && Moved(old(B()), old(M()), Timed(now, NavContinue(delta)))
      ensures AccessGrantedStart(M(), p) >= old(lastNavStart + lastNavDuration) + delta + p.difs
    {
      lastNavDuration := lastNavDuration + delta;
    }

    /** navReset, on a CF-Poll: the NAV is forgotten, and a timer set for later than need
        be is set again. */
    method NavReset(now: real, timerEnd: real) returns (act: Action)
      requires Valid() && (backoffLeft > 0.0 ==> backoffStart <= now)
      modifies `backoffStart, `backoffLeft, `lastNavStart, `lastNavDuration
      ensures Valid() && lastNavStart == now && lastNavDuration == 0.0
      ensures backoffStart == old(backoffStart) || backoffStart == now
      ensures M() == old(M()).(navStart := now, navDuration := 0.0)
      ensures var before, after := AccessGrantedStart(old(M()), p), AccessGrantedStart(M(), p);
        var updated := Update(old(B()), before, now);
        B() == Update(updated, after, now)
        && act == if Delay(updated, after, now) < Delay(old(B()), before, now) && timerRunning && timerEnd > Delay(updated, after, now)
                  then StartTimer(Delay(updated, after, now)) else Nothing
    {
      hide AccessGrantedStart;
      var before := GetDelay(now);
      lastNavStart, lastNavDuration := now, 0.0;
      var after := GetDelay(now);
      if after < before && timerRunning && timerEnd > after {
        return StartTimer(after);
      }
      return Nothing;
    }

    method ResetCW()
      requires Valid()
      modifies `cw
      ensures Valid() && cw == cwMin
    {
      cw := cwMin;
    }

    method UpdateFailedCW()
      requires Valid()
      modifies `cw
      ensures Valid() && cw == Widened(old(cw), cwMax)
    {
      cw := cw * 2;
      if cw > cwMax {
        cw := cwMax;
      }
    }
  }
}
