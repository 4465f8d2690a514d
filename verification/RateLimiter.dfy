/**
 * internal/dht/hardening/ratelimit.go: per-address sliding window counters. Times are nanoseconds and never
 * decrease; counters are mathematical integers.
 */
module RateLimiter {

  datatype Window = Window(prevCount: nat, currCount: nat, currStart: int)

  datatype Config = Config(limit: nat, window: int, maxIPs: nat) {
    predicate Valid() {
      limit > 0 && window > 0 && maxIPs > 0
    }
  }

  /** `NewRateLimiter` replaces arguments that are not positive. */
  function NewConfig(limit: int, window: int, maxIPs: int): (c: Config)
    ensures c.Valid()
  {
    Config(
      if limit <= 0 then 50 else limit,
      if window <= 0 then 60_000_000_000 else window,
      if maxIPs <= 0 then 100000 else maxIPs)
  }

  // ----- One address -----

  predicate Expired(c: Config, w: Window, now: int) {
    now - w.currStart >= 2 * c.window
  }

  /** Reset after two silent windows, rotate after one. */
  function Advance(c: Config, w: Window, now: int): Window {
    if Expired(c, w, now) then Window(0, 0, now)
    else if now - w.currStart >= c.window then Window(w.currCount, 0, w.currStart + c.window)
    else w
  }

  function Counted(c: Config, w: Window, now: int): Window {
    var a := Advance(c, w, now);
    a.(currCount := a.currCount + 1)
  }

  /** The weighted estimate after counting this query, against the limit. */
  predicate Admits(c: Config, w: Window, now: int)
    requires c.Valid()
  {
    var remaining := c.window - (now - w.currStart);
    w.prevCount * remaining / c.window + w.currCount <= c.limit
  }

  // ----- The table -----

  type Table<IP> = map<IP, Window>

  function Sweep<IP>(c: Config, t: Table<IP>, now: int): Table<IP> {
    map ip | ip in t && !Expired(c, t[ip], now) :: t[ip]
  }

  /** `Allow` up to the lookup: a new address gets an entry, and an entry too many triggers a sweep. */
  function Entered<IP>(c: Config, t: Table<IP>, ip: IP, now: int): (r: Table<IP>)
    requires c.Valid()
    ensures ip in r
  {
    if ip in t then t
    else
      var t' := t[ip := Window(0, 0, now)];
      if |t'| > c.maxIPs then Sweep(c, t', now) else t'
  }

  function AllowTable<IP>(c: Config, t: Table<IP>, ip: IP, now: int): (r: Table<IP>)
    requires c.Valid()
    ensures ip in r
  {
    var e := Entered(c, t, ip, now);
    e[ip := Counted(c, e[ip], now)]
  }

  /**
   * What one query does. The window of its address is reset after two window lengths, rotated after one, and counts the
   * query; the query is admitted if that count, with the weighted share of the window before, is within the limit. The
   * other addresses keep theirs, except that a new address too many has those deleted that were silent for two lengths.
   */
  ghost predicate Answered<IP>(c: Config, before: Table<IP>, after: Table<IP>, ip: IP, now: int, ok: bool)
    requires c.Valid()
  {
    var w := if ip in before then before[ip] else Window(0, 0, now);
    var age := now - w.currStart;
    var crowded := ip !in before && |before| + 1 > c.maxIPs;
    && ip in after
    && after[ip] == (if age >= 2 * c.window then Window(0, 1, now)
                     else if age >= c.window then Window(w.currCount, 1, w.currStart + c.window)
                     else Window(w.prevCount, w.currCount + 1, w.currStart))
    && (ok <==> after[ip].prevCount * (c.window - (now - after[ip].currStart)) / c.window + after[ip].currCount <= c.limit)
    && (forall x :: x in before && x != ip ==> (x in after <==> !(crowded && now - before[x].currStart >= 2 * c.window)))
    && forall x :: x in after && x != ip ==> x in before && after[x] == before[x]
  }

  lemma AllowMeans<IP>(c: Config, t: Table<IP>, ip: IP, now: int)
    requires c.Valid()
    ensures Answered(c, t, AllowTable(c, t, ip, now), ip, now, Admits(c, AllowTable(c, t, ip, now)[ip], now))
  {
    hide Entered, Sweep;
    EnteredMeans(c, t, ip, now);
  }

  lemma EnteredMeans<IP>(c: Config, t: Table<IP>, ip: IP, now: int)
    requires c.Valid()
    ensures var e := Entered(c, t, ip, now);
            && e[ip] == (if ip in t then t[ip] else Window(0, 0, now))
            && (forall x :: x in t && x != ip ==>
                  (x in e <==> !(ip !in t && |t| + 1 > c.maxIPs && now - t[x].currStart >= 2 * c.window)))
            && (forall x :: x in e && x != ip ==> x in t && e[x] == t[x])
  {
    if ip !in t {
      assert t[ip := Window(0, 0, now)].Keys == t.Keys + {ip};
      assert |t[ip := Window(0, 0, now)]| == |t| + 1;
    }
  }

  class Limiter<IP(==)> {
    var windows: map<IP, Window>
    const config: Config

    constructor (limit: int, window: int, maxIPs: int)
      ensures windows == map[] && config == NewConfig(limit, window, maxIPs)
      ensures config.limit == (if limit > 0 then limit else 50) && config.maxIPs == (if maxIPs > 0 then maxIPs else 100000)
      ensures config.window == if window > 0 then window else 60_000_000_000
    {
      windows := map[];
      config := NewConfig(limit, window, maxIPs);
    }

    method Allow(ip: IP, now: int) returns (ok: bool)
      requires config.Valid()
      modifies this
      ensures windows == AllowTable(config, old(windows), ip, now)
      ensures ok == Admits(config, windows[ip], now)
      ensures Answered(config, old(windows), windows, ip, now, ok)
    {
      hide Answered;
      AllowMeans(config, windows, ip, now);
      if ip !in windows {
        windows := windows[ip := Window(0, 0, now)];
        if |windows| > config.maxIPs {
          var _ := CleanupLocked(now);
        }
      }
      var w := windows[ip];
      var elapsed := now - w.currStart;
      if elapsed >= 2 * config.window {
        w := Window(0, 0, now);
        elapsed := 0;
      } else if elapsed >= config.window {
        w := w.(prevCount := w.currCount);
        w := w.(currCount := 0);
        w := w.(currStart := w.currStart + config.window);
        elapsed := now - w.currStart;
      }
      w := w.(currCount := w.currCount + 1);
      windows := windows[ip := w];
      var remaining := config.window - elapsed;
      var estimate := w.prevCount * remaining / config.window + w.currCount;
      ok := estimate <= config.limit;
    }

    method Cleanup(now: int) returns (removed: nat)
      requires config.Valid()
      modifies this
      ensures windows == Sweep(config, old(windows), now)
      ensures forall x :: x in windows <==> x in old(windows) && now - old(windows)[x].currStart < 2 * config.window
      ensures forall x :: x in windows ==> windows[x] == old(windows)[x]
      ensures removed == |old(windows)| - |windows|
    {
      removed := CleanupLocked(now);
    }

    method CleanupLocked(now: int) returns (removed: nat)
      requires config.Valid()
      modifies this
      ensures windows == Sweep(config, old(windows), now)
      ensures forall x :: x in windows <==> x in old(windows) && now - old(windows)[x].currStart < 2 * config.window
      ensures forall x :: x in windows ==> windows[x] == old(windows)[x]
      ensures removed == |old(windows)| - |windows|
    {
      removed := 0;
      var todo := windows.Keys;
      while todo != {}
        invariant todo <= windows.Keys <= old(windows).Keys
        invariant forall ip :: ip in old(windows).Keys ==>
          (ip in windows <==> ip in todo || !Expired(config, old(windows)[ip], now))
        invariant forall ip :: ip in windows ==> windows[ip] == old(windows)[ip]
        invariant removed == |old(windows)| - |windows|
        decreases |todo|
      {
        var ip :| ip in todo;
        todo := todo - {ip};
        if now - windows[ip].currStart >= 2 * config.window {
          ghost var before := windows;
          windows := windows - {ip};
          assert windows.Keys == before.Keys - {ip};
          removed := removed + 1;
        }
      }
      assert windows == Sweep(config, old(windows), now);
    }
  }

  // ----- Runs -----

  /** A `Cleanup` may come at any moment; queries carry their address. */
  datatype Event<IP> = Query(ip: IP, now: int) | Cleanup(now: int)

  /** A query as answered: the window it was counted in, its rank there, and the answer. */
  datatype Answer<IP> = Answer(ip: IP, now: int, start: int, rank: nat, ok: bool)

  ghost predicate TimeOrdered<IP>(es: seq<Event<IP>>) {
    forall i, j :: 0 <= i < j < |es| ==> es[i].now <= es[j].now
  }

  function AnswerOf<IP>(c: Config, t: Table<IP>, ip: IP, now: int): Answer<IP>
    requires c.Valid() && ip in t
  {
    Answer(ip, now, t[ip].currStart, t[ip].currCount, Admits(c, t[ip], now))
  }

  /** The limiter as it is: cleanups and cap-triggered sweeps delete entries. */
  ghost function Run<IP>(c: Config, t: Table<IP>, es: seq<Event<IP>>): seq<Answer<IP>>
    requires c.Valid()
    decreases |es|
  {
    if es == [] then []
    else
      match es[0]
      case Cleanup(now) => Run(c, Sweep(c, t, now), es[1..])
      case Query(ip, now) =>
        var t' := AllowTable(c, t, ip, now);
        [AnswerOf(c, t', ip, now)] + Run(c, t', es[1..])
  }

  /** The ideal limiter keeps one counter for every address it ever saw. */
  function IdealTable<IP>(c: Config, t: Table<IP>, ip: IP, now: int): (r: Table<IP>)
    ensures ip in r
  {
    t[ip := Counted(c, if ip in t then t[ip] else Window(0, 0, now), now)]
  }

  ghost function IdealRun<IP>(c: Config, t: Table<IP>, es: seq<Event<IP>>): seq<Answer<IP>>
    requires c.Valid()
    decreases |es|
  {
    if es == [] then []
    else
      match es[0]
      case Cleanup(now) => IdealRun(c, t, es[1..])
      case Query(ip, now) =>
        var t' := IdealTable(c, t, ip, now);
        [AnswerOf(c, t', ip, now)] + IdealRun(c, t', es[1..])
  }

  // ----- Deleting is invisible -----

  /** Same entries, except that some fully expired ones are gone. */
  ghost predicate Forgets<IP>(c: Config, kept: Table<IP>, ideal: Table<IP>, now: int) {
    && (forall ip :: ip in kept ==> ip in ideal && kept[ip] == ideal[ip])
    && (forall ip :: ip in ideal && ip !in kept ==> Expired(c, ideal[ip], now))
  }

  lemma ForgetsLater<IP>(c: Config, kept: Table<IP>, ideal: Table<IP>, now: int, later: int)
    requires Forgets(c, kept, ideal, now) && now <= later
    ensures Forgets(c, kept, ideal, later)
    ensures Forgets(c, Sweep(c, kept, later), ideal, later)
  {
  }

  lemma QueryForgets<IP>(c: Config, kept: Table<IP>, ideal: Table<IP>, ip: IP, now: int)
    requires c.Valid() && Forgets(c, kept, ideal, now)
    ensures Forgets(c, AllowTable(c, kept, ip, now), IdealTable(c, ideal, ip, now), now)
    ensures AllowTable(c, kept, ip, now)[ip] == IdealTable(c, ideal, ip, now)[ip]
  {
    var newborn := Window(0, 0, now);
    var e := Entered(c, kept, ip, now);
    if ip !in kept {
      assert e[ip] == newborn;
      assert ip in ideal ==> Counted(c, ideal[ip], now) == Counted(c, newborn, now);
      forall x | x in ideal && x !in e ensures Expired(c, ideal[x], now) {
      }
    }
  }

  lemma {:induction false} SameAnswers<IP>(c: Config, kept: Table<IP>, ideal: Table<IP>, es: seq<Event<IP>>, now: int)
    requires c.Valid() && TimeOrdered(es) && (es != [] ==> now <= es[0].now)
    requires Forgets(c, kept, ideal, now)
    ensures Run(c, kept, es) == IdealRun(c, ideal, es)
    decreases |es|
  {
    if es != [] {
      var later := es[0].now;
      assert TimeOrdered(es[1..]) && (es[1..] != [] ==> later <= es[1].now);
      ForgetsLater(c, kept, ideal, now, later);
      match es[0] {
        case Cleanup(_) =>
          SameAnswers(c, Sweep(c, kept, later), ideal, es[1..], later);
        case Query(ip, _) =>
          QueryForgets(c, kept, ideal, ip, later);
          SameAnswers(c, AllowTable(c, kept, ip, later), IdealTable(c, ideal, ip, later), es[1..], later);
      }
    }
  }

  /** On any time-ordered run, cleanups and sweeps never change an answer. */
  lemma CleanupInvisible<IP>(c: Config, es: seq<Event<IP>>)
    requires c.Valid() && TimeOrdered(es)
    ensures Run(c, map[], es) == IdealRun(c, map[], es)
  {
    if es != [] {
      SameAnswers(c, map[], map[], es, es[0].now);
    }
  }

  // ----- How much is admitted -----

  ghost predicate StartedBy<IP>(t: Table<IP>, now: int) {
    forall ip :: ip in t ==> t[ip].currStart <= now
  }

  /** The query lies in its window, and is answered yes only with a rank within the limit. */
  ghost predicate WellCounted<IP>(c: Config, q: Answer<IP>) {
    q.start <= q.now < q.start + c.window && q.rank >= 1 && (q.ok ==> q.rank <= c.limit)
  }

  /** The later query is in the same window with a higher rank, in the next window, or in one after a silent window. */
  ghost predicate After(c: Config, start: int, rank: nat, start': int, rank': nat) {
    if start == start' then rank < rank' else start' == start + c.window || start' >= start + 2 * c.window
  }

  ghost predicate AfterTable<IP>(c: Config, t: Table<IP>, q: Answer<IP>) {
    q.ip in t ==> After(c, t[q.ip].currStart, t[q.ip].currCount, q.start, q.rank)
  }

  ghost predicate Ordered<IP>(c: Config, qs: seq<Answer<IP>>) {
    forall i, j :: 0 <= i < j < |qs| ==>
      qs[i].now <= qs[j].now && (qs[i].ip == qs[j].ip ==> After(c, qs[i].start, qs[i].rank, qs[j].start, qs[j].rank))
  }

  /** An admitted query fits the limit together with its share of `prev` queries in the window before. */
  ghost predicate Weighs<IP>(c: Config, q: Answer<IP>, prev: nat)
    requires c.Valid()
  {
    q.ok ==> prev * (c.window - (q.now - q.start)) / c.window + q.rank <= c.limit
  }

  ghost predicate WeighsTable<IP>(c: Config, t: Table<IP>, q: Answer<IP>)
    requires c.Valid()
  {
    q.ip in t ==>
      && (q.start == t[q.ip].currStart ==> Weighs(c, q, t[q.ip].prevCount))
      && (q.start == t[q.ip].currStart + c.window ==> Weighs(c, q, t[q.ip].currCount))
  }

  /** Queries of one window count, as many as they are, against those of the next. */
  ghost predicate Weighted<IP>(c: Config, qs: seq<Answer<IP>>)
    requires c.Valid()
  {
    forall i, j :: 0 <= i < j < |qs| && qs[i].ip == qs[j].ip && qs[j].start == qs[i].start + c.window ==>
      Weighs(c, qs[j], qs[i].rank)
  }

  lemma ShareMonotone(c: Config, a: nat, b: nat, remaining: nat)
    requires c.Valid() && a <= b
    ensures a * remaining / c.window <= b * remaining / c.window
  {
    assert a * remaining <= b * remaining;
    DivMonotone(a * remaining, b * remaining, c.window);
  }

  lemma DivMonotone(x: int, y: int, d: int)
    requires d > 0 && x <= y
    ensures x / d <= y / d
  {
    var a, b := x / d, y / d;
    assert a > b ==> d * a >= d * (b + 1);
  }

  lemma WeighsLess<IP>(c: Config, q: Answer<IP>, a: nat, b: nat)
    requires c.Valid() && a <= b && q.start <= q.now < q.start + c.window && Weighs(c, q, b)
    ensures Weighs(c, q, a)
  {
    ShareMonotone(c, a, b, c.window - (q.now - q.start));
  }

  /** One query: what a later answer weighs against the table after it, it weighs against the table before it. */
  lemma WeighsBefore<IP>(c: Config, t: Table<IP>, ip: IP, now: int, q: Answer<IP>)
    requires c.Valid() && StartedBy(t, now)
    requires var t' := IdealTable(c, t, ip, now); WeighsTable(c, t', q) && AfterTable(c, t', q) && WellCounted(c, q)
    ensures WeighsTable(c, t, q)
  {
    hide Weighs;
    if q.ip == ip && ip in t {
      var w, w' := t[ip], IdealTable(c, t, ip, now)[ip];
      if w'.currStart == w.currStart && q.start == w.currStart + c.window {
        WeighsLess(c, q, w.currCount, w'.currCount);
      }
    }
  }

  lemma QueryWeighs<IP>(c: Config, t: Table<IP>, ip: IP, now: int)
    requires c.Valid() && StartedBy(t, now)
    ensures WeighsTable(c, t, AnswerOf(c, IdealTable(c, t, ip, now), ip, now))
  {
  }

  lemma {:induction false} IdealRunWeighted<IP>(c: Config, t: Table<IP>, es: seq<Event<IP>>, now: int)
    requires c.Valid() && TimeOrdered(es) && StartedBy(t, now) && (es != [] ==> now <= es[0].now)
    ensures var qs := IdealRun(c, t, es);
            Weighted(c, qs) && forall i :: 0 <= i < |qs| ==> WeighsTable(c, t, qs[i])
    decreases |es|
  {
    hide Counted, Admits, Weighs, WeighsTable;
    if es != [] {
      var later := es[0].now;
      var rest := es[1..];
      assert TimeOrdered(rest) && (rest != [] ==> later <= rest[0].now);
      match es[0] {
        case Cleanup(_) =>
          IdealRunWeighted(c, t, rest, later);
        case Query(ip, _) =>
          var t' := IdealTable(c, t, ip, later);
          var q, qs := AnswerOf(c, t', ip, later), IdealRun(c, t', rest);
          QueryCounted(c, t, ip, later);
          QueryWeighs(c, t, ip, later);
          IdealRunCounted(c, t', rest, later);
          IdealRunWeighted(c, t', rest, later);
          forall i | 0 <= i < |qs|
            ensures WeighsTable(c, t, qs[i])
            ensures q.ip == qs[i].ip && qs[i].start == q.start + c.window ==> Weighs(c, qs[i], q.rank)
          {
            WeighsBefore(c, t, ip, later, qs[i]);
            WeighsAnswer(c, t', ip, later, qs[i]);
          }
      }
    }
  }

  lemma WeighsAnswer<IP>(c: Config, t: Table<IP>, ip: IP, now: int, q: Answer<IP>)
    requires c.Valid() && ip in t && WeighsTable(c, t, q)
    ensures var a := AnswerOf(c, t, ip, now); a.ip == q.ip && q.start == a.start + c.window ==> Weighs(c, q, a.rank)
  {
  }

  lemma QueryCounted<IP>(c: Config, t: Table<IP>, ip: IP, now: int)
    requires c.Valid() && StartedBy(t, now)
    ensures var t' := IdealTable(c, t, ip, now);
            var q := AnswerOf(c, t', ip, now);
            StartedBy(t', now) && WellCounted(c, q) && AfterTable(c, t, q)
  {
    var w := IdealTable(c, t, ip, now)[ip];
    var remaining := c.window - (now - w.currStart);
    assert w.prevCount * remaining / c.window >= 0 by {
      assert w.prevCount * remaining >= 0;
    }
  }

  lemma {:induction false} IdealRunCounted<IP>(c: Config, t: Table<IP>, es: seq<Event<IP>>, now: int)
    requires c.Valid() && TimeOrdered(es) && StartedBy(t, now) && (es != [] ==> now <= es[0].now)
    ensures var qs := IdealRun(c, t, es);
            && Ordered(c, qs)
            && (forall i :: 0 <= i < |qs| ==> now <= qs[i].now && WellCounted(c, qs[i]) && AfterTable(c, t, qs[i]))
    decreases |es|
  {
    hide Counted, Admits;
    if es != [] {
      var later := es[0].now;
      var rest := es[1..];
      assert TimeOrdered(rest) && (rest != [] ==> later <= rest[0].now);
      match es[0] {
        case Cleanup(_) =>
          IdealRunCounted(c, t, rest, later);
        case Query(ip, _) =>
          QueryCounted(c, t, ip, later);
          IdealRunCounted(c, IdealTable(c, t, ip, later), rest, later);
      }
    }
  }

  /** Queries of `ip` admitted in the window that starts at `start`. */
  ghost function AdmittedInWindow<IP>(qs: seq<Answer<IP>>, ip: IP, start: int): nat {
    if qs == [] then 0
    else
      var q := qs[|qs| - 1];
      AdmittedInWindow(qs[..|qs| - 1], ip, start) + if q.ip == ip && q.ok && q.start == start then 1 else 0
  }

  ghost predicate Inside<IP>(q: Answer<IP>, ip: IP, from: int, len: int) {
    q.ip == ip && q.ok && from <= q.now < from + len
  }

  /** Queries of `ip` admitted at a time in [from, from + len). */
  ghost function AdmittedDuring<IP>(qs: seq<Answer<IP>>, ip: IP, from: int, len: int): nat {
    if qs == [] then 0
    else
      var q := qs[|qs| - 1];
      AdmittedDuring(qs[..|qs| - 1], ip, from, len) + if Inside(q, ip, from, len) then 1 else 0
  }

  lemma {:induction false} WindowBound<IP>(c: Config, qs: seq<Answer<IP>>, ip: IP, start: int, top: nat)
    requires Ordered(c, qs) && forall i :: 0 <= i < |qs| ==> WellCounted(c, qs[i])
    requires forall i :: 0 <= i < |qs| && qs[i].ip == ip && qs[i].ok && qs[i].start == start ==> qs[i].rank <= top
    ensures AdmittedInWindow(qs, ip, start) <= top
  {
    if qs != [] {
      var q := qs[|qs| - 1];
      var front := qs[..|qs| - 1];
      if q.ip == ip && q.ok && q.start == start {
        WindowBound(c, front, ip, start, q.rank - 1);
      } else {
        WindowBound(c, front, ip, start, top);
      }
    }
  }

  lemma {:induction false} TwoWindows<IP>(qs: seq<Answer<IP>>, ip: IP, from: int, len: int, s1: int, s2: int)
    requires forall i :: 0 <= i < |qs| && Inside(qs[i], ip, from, len) ==> qs[i].start == s1 || qs[i].start == s2
    ensures AdmittedDuring(qs, ip, from, len) <= AdmittedInWindow(qs, ip, s1) + AdmittedInWindow(qs, ip, s2)
  {
    if qs != [] {
      TwoWindows(qs[..|qs| - 1], ip, from, len, s1, s2);
    }
  }

  /** Three windows never meet one interval of window length. */
  lemma AtMostTwoWindows<IP>(c: Config, qs: seq<Answer<IP>>, ip: IP, from: int, i: nat, j: nat, k: nat)
    requires c.Valid() && Ordered(c, qs) && i <= j <= k < |qs|
    requires forall m :: 0 <= m < |qs| ==> WellCounted(c, qs[m])
    requires Inside(qs[i], ip, from, c.window) && Inside(qs[j], ip, from, c.window) && Inside(qs[k], ip, from, c.window)
    ensures qs[j].start == qs[i].start || qs[j].start == qs[k].start
  {
    assert i < j ==> After(c, qs[i].start, qs[i].rank, qs[j].start, qs[j].rank);
    assert j < k ==> After(c, qs[j].start, qs[j].rank, qs[k].start, qs[k].rank);
    assert WellCounted(c, qs[i]) && WellCounted(c, qs[k]);
  }

  lemma {:induction false} OutermostInside<IP>(qs: seq<Answer<IP>>, ip: IP, from: int, len: int) returns (i: nat, k: nat)
    requires exists m :: 0 <= m < |qs| && Inside(qs[m], ip, from, len)
    ensures i <= k < |qs| && Inside(qs[i], ip, from, len) && Inside(qs[k], ip, from, len)
    ensures forall m :: 0 <= m < |qs| && Inside(qs[m], ip, from, len) ==> i <= m <= k
  {
    i := 0;
    while !Inside(qs[i], ip, from, len)
      invariant i < |qs|
      invariant forall m :: 0 <= m < i ==> !Inside(qs[m], ip, from, len)
      decreases |qs| - i
    {
      i := i + 1;
    }
    k := |qs| - 1;
    while !Inside(qs[k], ip, from, len)
      invariant i <= k < |qs|
      invariant forall m :: k < m < |qs| ==> !Inside(qs[m], ip, from, len)
      decreases k
    {
      k := k - 1;
    }
  }

  lemma IntervalBound<IP>(c: Config, qs: seq<Answer<IP>>, ip: IP, from: int)
    requires c.Valid() && Ordered(c, qs) && forall m :: 0 <= m < |qs| ==> WellCounted(c, qs[m])
    ensures AdmittedDuring(qs, ip, from, c.window) <= 2 * c.limit
  {
    var s1, s2 := 0, 0;
    if exists m :: 0 <= m < |qs| && Inside(qs[m], ip, from, c.window) {
      var i, k := OutermostInside(qs, ip, from, c.window);
      s1, s2 := qs[i].start, qs[k].start;
      forall j | 0 <= j < |qs| && Inside(qs[j], ip, from, c.window) ensures qs[j].start == s1 || qs[j].start == s2 {
        AtMostTwoWindows(c, qs, ip, from, i, j, k);
      }
    }
    TwoWindows(qs, ip, from, c.window, s1, s2);
    WindowBound(c, qs, ip, s1, c.limit);
    WindowBound(c, qs, ip, s2, c.limit);
  }

  /**
   * Every address, every run, with deletions anywhere: windows of one address never overlap, each admits at most
   * `limit` queries, and any half-open interval of window length admits at most twice that.
   */
  lemma HistoryBound<IP>(c: Config, es: seq<Event<IP>>, ip: IP)
    requires c.Valid() && TimeOrdered(es)
    ensures var qs := Run(c, map[], es);
            && (forall i, j :: 0 <= i < j < |qs| && qs[i].ip == qs[j].ip && qs[i].start != qs[j].start ==>
                  qs[i].start + c.window <= qs[j].start)
            && (forall start :: AdmittedInWindow(qs, ip, start) <= c.limit)
            && (forall from :: AdmittedDuring(qs, ip, from, c.window) <= 2 * c.limit)
  {
    var qs := Run(c, map[], es);
    CleanupInvisible(c, es);
    if es != [] {
      IdealRunCounted(c, map[], es, es[0].now);
    }
    assert forall i, j :: 0 <= i < j < |qs| && qs[i].ip == qs[j].ip ==>
      After(c, qs[i].start, qs[i].rank, qs[j].start, qs[j].rank);
    forall start ensures AdmittedInWindow(qs, ip, start) <= c.limit {
      WindowBound(c, qs, ip, start, c.limit);
    }
    forall from ensures AdmittedDuring(qs, ip, from, c.window) <= 2 * c.limit {
      IntervalBound(c, qs, ip, from);
    }
  }

  // ----- The factor two is reached -----

  function Burst<IP>(ip: IP, now: int, n: nat): seq<Event<IP>> {
    seq(n, i => Query(ip, now))
  }

  /** One query, a full burst at the end of the next window, and a full burst near the end of the one after. */
  function TwoBursts<IP>(c: Config, ip: IP): seq<Event<IP>> {
    [Query(ip, 0)] + Burst(ip, 2 * c.window - 1, c.limit) + Burst(ip, 3 * c.window - 2, c.limit)
  }

  /** `w` after `n` more queries in the same window. */
  function Later(w: Window, n: nat): Window {
    w.(currCount := w.currCount + n)
  }

  lemma {:induction false} BurstAdmitted<IP>(c: Config, t: Table<IP>, ip: IP, w: Window, now: int, n: nat, from: int, tail: seq<Event<IP>>)
    requires c.Valid() && ip in t && t[ip] == w && w.currStart <= now < w.currStart + c.window
    requires from <= now < from + c.window
    requires w.prevCount * (c.window - (now - w.currStart)) / c.window + w.currCount + n <= c.limit
    ensures AdmittedCount(Run(c, t, Burst(ip, now, n) + tail), ip, from, c.window)
         == n + AdmittedCount(Run(c, t[ip := Later(w, n)], tail), ip, from, c.window)
    decreases n
  {
    var es := Burst(ip, now, n) + tail;
    if n == 0 {
      assert es == tail && t[ip := Later(w, n)] == t;
    } else {
      assert es[0] == Query(ip, now) && es[1..] == Burst(ip, now, n - 1) + tail;
      var t' := AllowTable(c, t, ip, now);
      assert t' == t[ip := Later(w, 1)];
      BurstAdmitted(c, t', ip, Later(w, 1), now, n - 1, from, tail);
      assert t'[ip := Later(Later(w, 1), n - 1)] == t[ip := Later(w, n)];
      var q := AnswerOf(c, t', ip, now);
      assert Inside(q, ip, from, c.window);
      assert Run(c, t, es)[1..] == Run(c, t', es[1..]);
    }
  }

  /** `AdmittedDuring`, counted from the front. */
  ghost function AdmittedCount<IP>(qs: seq<Answer<IP>>, ip: IP, from: int, len: int): nat {
    if qs == [] then 0
    else (if Inside(qs[0], ip, from, len) then 1 else 0) + AdmittedCount(qs[1..], ip, from, len)
  }

  lemma {:induction false} CountSnoc<IP>(qs: seq<Answer<IP>>, q: Answer<IP>, ip: IP, from: int, len: int)
    ensures AdmittedCount(qs + [q], ip, from, len) == AdmittedCount(qs, ip, from, len) + if Inside(q, ip, from, len) then 1 else 0
  {
    if qs == [] {
      assert qs + [q] == [q] && [q][1..] == [];
    } else {
      assert (qs + [q])[1..] == qs[1..] + [q];
      CountSnoc(qs[1..], q, ip, from, len);
    }
  }

  lemma {:induction false} CountSame<IP>(qs: seq<Answer<IP>>, ip: IP, from: int, len: int)
    ensures AdmittedCount(qs, ip, from, len) == AdmittedDuring(qs, ip, from, len)
  {
    if qs != [] {
      var front := qs[..|qs| - 1];
      CountSame(front, ip, from, len);
      CountSnoc(front, qs[|qs| - 1], ip, from, len);
      assert qs == front + [qs[|qs| - 1]];
    }
  }

  /**
   * The sliding estimate does not hold every interval to the limit: for every limit below half the window's ticks
   * there is a run that admits twice the limit within one window length.
   */
  lemma BoundIsTight<IP>(c: Config, ip: IP)
    requires c.Valid() && 2 * c.limit < c.window
    ensures TimeOrdered(TwoBursts(c, ip))
    ensures AdmittedDuring(Run(c, map[], TwoBursts(c, ip)), ip, 2 * c.window - 1, c.window) == 2 * c.limit
  {
    var from := 2 * c.window - 1;
    var first, second := Burst(ip, from, c.limit), Burst(ip, 3 * c.window - 2, c.limit);
    var es := TwoBursts(c, ip);
    var t0: Table<IP> := map[ip := Window(0, 1, 0)];
    assert es[0] == Query(ip, 0) && es[1..] == first + second;
    assert AllowTable(c, map[], ip, 0) == t0;
    CountSame(Run(c, map[], es), ip, from, c.window);
    assert Run(c, map[], es)[1..] == Run(c, t0, first + second);
    FirstBurst(c, t0, ip, from, second);
    var t1 := t0[ip := Window(1, c.limit, c.window)];
    SecondBurst(c, t1, ip);
  }

  lemma RunFromRotated<IP>(c: Config, t: Table<IP>, t': Table<IP>, ip: IP, now: int, n: nat, tail: seq<Event<IP>>)
    requires c.Valid() && n > 0 && ip in t && ip in t' && t' == t[ip := t'[ip]]
    requires Counted(c, t[ip], now) == Counted(c, t'[ip], now)
    ensures Run(c, t, Burst(ip, now, n) + tail) == Run(c, t', Burst(ip, now, n) + tail)
  {
    var es := Burst(ip, now, n) + tail;
    assert es[0] == Query(ip, now);
    assert AllowTable(c, t, ip, now) == AllowTable(c, t', ip, now);
  }

  /** So near the end of a window the previous one weighs nothing. */
  lemma NoCarry(c: Config, w: Window, now: int, remaining: nat)
    requires c.Valid() && c.window - (now - w.currStart) == remaining && w.prevCount * remaining < c.window
    ensures w.prevCount * (c.window - (now - w.currStart)) / c.window == 0
  {
    SmallQuotient(w.prevCount * remaining, c.window);
  }

  lemma SmallQuotient(x: int, d: int)
    requires 0 <= x < d
    ensures x / d == 0
  {
  }

  lemma FirstBurst<IP>(c: Config, t0: Table<IP>, ip: IP, from: int, tail: seq<Event<IP>>)
    requires c.Valid() && c.window >= 2 && t0 == map[ip := Window(0, 1, 0)]
    requires from == 2 * c.window - 1
    ensures AdmittedCount(Run(c, t0, Burst(ip, from, c.limit) + tail), ip, from, c.window)
         == c.limit + AdmittedCount(Run(c, t0[ip := Window(1, c.limit, c.window)], tail), ip, from, c.window)
  {
    var w := Window(1, 0, c.window);
    var t := t0[ip := w];
    RunFromRotated(c, t0, t, ip, from, c.limit, tail);
    NoCarry(c, w, from, 1);
    BurstAdmitted(c, t, ip, w, from, c.limit, from, tail);
    assert t[ip := Later(w, c.limit)] == t0[ip := Window(1, c.limit, c.window)];
  }

  lemma SecondBurstEnd<IP>(c: Config, t: Table<IP>, ip: IP)
    requires c.Valid()
    ensures AdmittedCount(Run(c, t, []), ip, 2 * c.window - 1, c.window) == 0
  {
  }

  lemma SecondBurst<IP>(c: Config, t1: Table<IP>, ip: IP)
    requires c.Valid() && 2 * c.limit < c.window && t1 == map[ip := Window(1, c.limit, c.window)]
    ensures AdmittedCount(Run(c, t1, Burst(ip, 3 * c.window - 2, c.limit)), ip, 2 * c.window - 1, c.window) == c.limit
  {
    hide AllowTable, IdealTable, Run, AdmittedCount, Admits;
    var now := 3 * c.window - 2;
    var w := Window(c.limit, 0, 2 * c.window);
    var t := t1[ip := w];
    assert Burst(ip, now, c.limit) + [] == Burst(ip, now, c.limit);
    RunFromRotated(c, t1, t, ip, now, c.limit, []);
    NoCarry(c, w, now, 2);
    BurstAdmitted(c, t, ip, w, now, c.limit, 2 * c.window - 1, []);
    SecondBurstEnd(c, t[ip := Later(w, c.limit)], ip);
  }

  // ----- Exactly when an interval can hold more -----

  /** No run admits more than `limit` queries of `ip` in any interval of window length. */
  ghost predicate KeepsLimit<IP(!new)>(c: Config, ip: IP)
    requires c.Valid()
  {
    forall es: seq<Event<IP>>, from: int :: TimeOrdered(es) ==>
      AdmittedDuring(Run(c, map[], es), ip, from, c.window) <= c.limit
  }

  /** Some run admits twice `limit` queries of `ip` in an interval of window length. */
  ghost predicate ReachesTwice<IP(!new)>(c: Config, ip: IP)
    requires c.Valid()
  {
    exists es: seq<Event<IP>>, from: int ::
      TimeOrdered(es) && AdmittedDuring(Run(c, map[], es), ip, from, c.window) == 2 * c.limit
  }

  ghost predicate History<IP>(c: Config, qs: seq<Answer<IP>>)
    requires c.Valid()
  {
    Ordered(c, qs) && Weighted(c, qs) && forall i :: 0 <= i < |qs| ==> WellCounted(c, qs[i])
  }

  lemma RunHistory<IP>(c: Config, es: seq<Event<IP>>)
    requires c.Valid() && TimeOrdered(es)
    ensures History(c, Run(c, map[], es))
  {
    CleanupInvisible(c, es);
    if es != [] {
      IdealRunCounted(c, map[], es, es[0].now);
      IdealRunWeighted(c, map[], es, es[0].now);
    }
  }

  lemma {:induction false} OneWindow<IP>(qs: seq<Answer<IP>>, ip: IP, from: int, len: int, s: int)
    requires forall i :: 0 <= i < |qs| && Inside(qs[i], ip, from, len) ==> qs[i].start == s
    ensures AdmittedDuring(qs, ip, from, len) <= AdmittedInWindow(qs, ip, s)
  {
    if qs != [] {
      OneWindow(qs[..|qs| - 1], ip, from, len, s);
    }
  }

  /** What comes after the last query inside does not matter. */
  lemma {:induction false} UpToLast<IP>(qs: seq<Answer<IP>>, ip: IP, from: int, len: int, k: nat)
    requires k <= |qs| && forall m :: k <= m < |qs| ==> !Inside(qs[m], ip, from, len)
    ensures AdmittedDuring(qs, ip, from, len) == AdmittedDuring(qs[..k], ip, from, len)
  {
    if k == |qs| {
      assert qs[..k] == qs;
    } else {
      var front := qs[..|qs| - 1];
      UpToLast(front, ip, from, len, k);
      assert front[..k] == qs[..k];
    }
  }

  /** An interval that meets two windows meets two adjacent ones, and not the last tick of the second. */
  lemma TwoStarts<IP>(c: Config, qs: seq<Answer<IP>>, ip: IP, from: int, i: nat, k: nat)
    requires c.Valid() && History(c, qs) && i <= k < |qs| && qs[i].start != qs[k].start
    requires Inside(qs[i], ip, from, c.window) && Inside(qs[k], ip, from, c.window)
    ensures c.window >= 2 && qs[k].start == qs[i].start + c.window && qs[k].now - qs[k].start <= c.window - 2
  {
    assert WellCounted(c, qs[i]) && WellCounted(c, qs[k]);
    assert After(c, qs[i].start, qs[i].rank, qs[k].start, qs[k].rank);
  }

  /** Every query of the first window then takes its share from every one admitted in the second. */
  lemma Share<IP>(c: Config, qs: seq<Answer<IP>>, ip: IP, from: int, i: nat, k: nat, m: nat, j: nat)
    requires c.Valid() && History(c, qs) && i <= k < |qs| && qs[i].start != qs[k].start
    requires Inside(qs[i], ip, from, c.window) && Inside(qs[k], ip, from, c.window)
    requires m <= k && qs[m].ip == ip && qs[m].start == qs[i].start
    requires j <= k && qs[j].ip == ip && qs[j].start == qs[k].start && qs[j].ok
    ensures qs[m].rank * 2 / c.window + qs[j].rank <= c.limit
  {
    TwoStarts(c, qs, ip, from, i, k);
    assert m < j;
    assert WellCounted(c, qs[j]) && qs[j].now <= qs[k].now;
    var remaining := c.window - (qs[j].now - qs[j].start);
    assert Weighs(c, qs[j], qs[m].rank);
    TwoTicks(c, qs[m].rank, remaining);
  }

  lemma TwoTicks(c: Config, rank: nat, remaining: int)
    requires c.Valid() && remaining >= 2
    ensures rank * 2 / c.window <= rank * remaining / c.window
  {
    assert rank * 2 <= rank * remaining;
    DivMonotone(rank * 2, rank * remaining, c.window);
  }

  /** The last query of a window has its highest rank. */
  lemma LastOf<IP>(c: Config, qs: seq<Answer<IP>>, ip: IP, i: nat) returns (m: nat)
    requires Ordered(c, qs) && i < |qs| && qs[i].ip == ip
    ensures m < |qs| && qs[m].ip == ip && qs[m].start == qs[i].start
    ensures forall j :: 0 <= j < |qs| && qs[j].ip == ip && qs[j].start == qs[i].start ==> qs[j].rank <= qs[m].rank
  {
    m := |qs| - 1;
    while !(qs[m].ip == ip && qs[m].start == qs[i].start)
      invariant i <= m < |qs|
      invariant forall j :: m < j < |qs| ==> !(qs[j].ip == ip && qs[j].start == qs[i].start)
      decreases m
    {
      m := m - 1;
    }
    forall j | 0 <= j < |qs| && qs[j].ip == ip && qs[j].start == qs[i].start ensures qs[j].rank <= qs[m].rank {
      assert j < m ==> After(c, qs[j].start, qs[j].rank, qs[m].start, qs[m].rank);
    }
  }

  lemma HistoryPrefix<IP>(c: Config, qs: seq<Answer<IP>>, k: nat)
    requires c.Valid() && History(c, qs) && k <= |qs|
    ensures History(c, qs[..k])
  {
    hide Weighs, After, WellCounted;
    assert forall i :: 0 <= i < k ==> qs[..k][i] == qs[i];
  }

  /** The head of the history that ends with the last query inside, and the two windows that can be met. */
  lemma Split<IP>(c: Config, qs: seq<Answer<IP>>, ip: IP, from: int) returns (head: seq<Answer<IP>>, i: nat, k: nat)
    requires c.Valid() && History(c, qs) && exists m :: 0 <= m < |qs| && Inside(qs[m], ip, from, c.window)
    ensures History(c, head) && i <= k && |head| == k + 1
    ensures Inside(head[i], ip, from, c.window) && Inside(head[k], ip, from, c.window)
    ensures AdmittedDuring(qs, ip, from, c.window) == AdmittedDuring(head, ip, from, c.window)
    ensures forall j :: 0 <= j < |head| && Inside(head[j], ip, from, c.window) ==>
              head[j].start == head[i].start || head[j].start == head[k].start
  {
    hide Weighs, Weighted;
    i, k := OutermostInside(qs, ip, from, c.window);
    head := qs[..k + 1];
    UpToLast(qs, ip, from, c.window, k + 1);
    HistoryPrefix(c, qs, k + 1);
    forall j | 0 <= j < |head| && Inside(head[j], ip, from, c.window)
      ensures head[j].start == head[i].start || head[j].start == head[k].start
    {
      AtMostTwoWindows(c, qs, ip, from, i, j, k);
    }
  }

  /** With a window of at most two ticks every interval is kept to the limit. */
  lemma SmallWindowKeeps<IP>(c: Config, qs: seq<Answer<IP>>, ip: IP, from: int)
    requires c.Valid() && c.window <= 2 && History(c, qs)
    ensures AdmittedDuring(qs, ip, from, c.window) <= c.limit
  {
    hide Weighs, Weighted, After, Inside, AdmittedDuring, AdmittedInWindow;
    if !exists m :: 0 <= m < |qs| && Inside(qs[m], ip, from, c.window) {
      OneWindow(qs, ip, from, c.window, 0);
      WindowBound(c, qs, ip, 0, c.limit);
    } else {
      var head, i, k := Split(c, qs, ip, from);
      var s1, s2 := head[i].start, head[k].start;
      if s1 == s2 {
        OneWindow(head, ip, from, c.window, s1);
        WindowBound(c, head, ip, s1, c.limit);
      } else {
        TwoStarts(c, head, ip, from, i, k);
        AdjacentKeeps(c, head, ip, from, i, k);
      }
    }
  }

  lemma InsideMeans<IP>(q: Answer<IP>, ip: IP, from: int, len: int)
    requires Inside(q, ip, from, len)
    ensures q.ip == ip && q.ok
  {
  }

  lemma AdjacentKeeps<IP>(c: Config, head: seq<Answer<IP>>, ip: IP, from: int, i: nat, k: nat)
    requires c.Valid() && c.window == 2 && History(c, head) && i <= k && |head| == k + 1
    requires head[i].start != head[k].start
    requires Inside(head[i], ip, from, c.window) && Inside(head[k], ip, from, c.window)
    requires forall j :: 0 <= j < |head| && Inside(head[j], ip, from, c.window) ==>
               head[j].start == head[i].start || head[j].start == head[k].start
    ensures AdmittedDuring(head, ip, from, c.window) <= c.limit
  {
    hide Weighs, Weighted, After, Inside, AdmittedDuring, AdmittedInWindow;
    var s1, s2 := head[i].start, head[k].start;
    InsideMeans(head[i], ip, from, c.window);
    InsideMeans(head[k], ip, from, c.window);
    var m := LastOf(c, head, ip, i);
    var r := head[m].rank;
    Share(c, head, ip, from, i, k, m, k);
    forall j | 0 <= j < |head| && head[j].ip == ip && head[j].ok && head[j].start == s2 ensures head[j].rank <= c.limit - r {
      Share(c, head, ip, from, i, k, m, j);
    }
    WindowBound(c, head, ip, s1, r);
    WindowBound(c, head, ip, s2, c.limit - r);
    TwoWindows(head, ip, from, c.window, s1, s2);
  }

  /** One query, a burst in the last tick of the next window, and one query more two ticks later. */
  function BurstAndOne<IP>(c: Config, ip: IP): seq<Event<IP>> {
    [Query(ip, 0)] + Burst(ip, 2 * c.window - 1, c.limit) + Burst(ip, 2 * c.window + 1, 1)
  }

  lemma PartOfLimit(limit: nat, window: int)
    requires limit > 0 && window > 0
    ensures limit * (window - 1) / window <= limit - 1
  {
    var x := limit * (window - 1);
    assert x == limit * window - limit;
    var q := x / window;
    assert q >= limit ==> window * q >= window * limit;
  }

  lemma BurstAndOneAdmitted<IP>(c: Config, ip: IP)
    requires c.Valid() && c.window >= 3
    ensures TimeOrdered(BurstAndOne(c, ip))
    ensures AdmittedDuring(Run(c, map[], BurstAndOne(c, ip)), ip, 2 * c.window - 1, c.window) == c.limit + 1
  {
    var from, now := 2 * c.window - 1, 2 * c.window + 1;
    var first, second := Burst(ip, from, c.limit), Burst(ip, now, 1);
    var es := BurstAndOne(c, ip);
    var t0: Table<IP> := map[ip := Window(0, 1, 0)];
    assert es[0] == Query(ip, 0) && es[1..] == first + second;
    assert AllowTable(c, map[], ip, 0) == t0;
    CountSame(Run(c, map[], es), ip, from, c.window);
    assert Run(c, map[], es)[1..] == Run(c, t0, first + second);
    FirstBurst(c, t0, ip, from, second);
    OneMore(c, t0[ip := Window(1, c.limit, c.window)], ip);
  }

  lemma OneMore<IP>(c: Config, t1: Table<IP>, ip: IP)
    requires c.Valid() && c.window >= 3 && t1 == map[ip := Window(1, c.limit, c.window)]
    ensures AdmittedCount(Run(c, t1, Burst(ip, 2 * c.window + 1, 1)), ip, 2 * c.window - 1, c.window) == 1
  {
    hide AllowTable, IdealTable, Run, AdmittedCount, Admits;
    var now := 2 * c.window + 1;
    var w := Window(c.limit, 0, 2 * c.window);
    var t := t1[ip := w];
    assert Burst(ip, now, 1) + [] == Burst(ip, now, 1);
    RunFromRotated(c, t1, t, ip, now, 1, []);
    PartOfLimit(c.limit, c.window);
    BurstAdmitted(c, t, ip, w, now, 1, 2 * c.window - 1, []);
    SecondBurstEnd(c, t[ip := Later(w, 1)], ip);
  }

  /** Every interval of window length is kept to the limit exactly if the window is at most two ticks long. */
  lemma KeepsLimitIff<IP(!new)>(c: Config, ip: IP)
    requires c.Valid()
    ensures KeepsLimit(c, ip) <==> c.window <= 2
  {
    hide Run, AdmittedDuring, TimeOrdered, BurstAndOne;
    if c.window <= 2 {
      forall es: seq<Event<IP>>, from: int | TimeOrdered(es)
        ensures AdmittedDuring(Run(c, map[], es), ip, from, c.window) <= c.limit
      {
        RunHistory(c, es);
        SmallWindowKeeps(c, Run(c, map[], es), ip, from);
      }
    } else {
      BurstAndOneAdmitted(c, ip);
    }
  }

  /** A window with `n` admitted queries has one of rank at least `n`. */
  lemma HighRank<IP>(c: Config, qs: seq<Answer<IP>>, ip: IP, start: int, n: nat) returns (j: nat)
    requires Ordered(c, qs) && (forall i :: 0 <= i < |qs| ==> WellCounted(c, qs[i]))
    requires n >= 1 && AdmittedInWindow(qs, ip, start) >= n
    ensures j < |qs| && qs[j].ip == ip && qs[j].ok && qs[j].start == start && qs[j].rank >= n
  {
    hide AdmittedInWindow, After;
    if forall i :: 0 <= i < |qs| && qs[i].ip == ip && qs[i].ok && qs[i].start == start ==> qs[i].rank <= n - 1 {
      WindowBound(c, qs, ip, start, n - 1);
    }
    j :| 0 <= j < |qs| && qs[j].ip == ip && qs[j].ok && qs[j].start == start && qs[j].rank >= n;
  }

  lemma TwiceNeedsTicks<IP>(c: Config, qs: seq<Answer<IP>>, ip: IP, from: int)
    requires c.Valid() && History(c, qs) && AdmittedDuring(qs, ip, from, c.window) == 2 * c.limit
    ensures 2 * c.limit < c.window
  {
    hide Weighs, Weighted, After, Inside, AdmittedDuring, AdmittedInWindow;
    if !exists m :: 0 <= m < |qs| && Inside(qs[m], ip, from, c.window) {
      OneWindow(qs, ip, from, c.window, 0);
      WindowBound(c, qs, ip, 0, c.limit);
    } else {
      var head, i, k := Split(c, qs, ip, from);
      var s1, s2 := head[i].start, head[k].start;
      WindowBound(c, head, ip, s1, c.limit);
      WindowBound(c, head, ip, s2, c.limit);
      TwoWindows(head, ip, from, c.window, s1, s2);
      if s1 == s2 {
        OneWindow(head, ip, from, c.window, s1);
      } else {
        var m := HighRank(c, head, ip, s1, c.limit);
        var j := HighRank(c, head, ip, s2, c.limit);
        Share(c, head, ip, from, i, k, m, j);
        NoShare(head[m].rank, c.limit, c.window);
      }
    }
  }

  lemma NoShare(rank: nat, limit: nat, window: int)
    requires window > 0 && rank >= limit && rank * 2 / window <= 0
    ensures 2 * limit < window
  {
  }

  /** Twice the limit is reached within one window length exactly if the window has more than twice as many ticks. */
  lemma ReachesTwiceIff<IP(!new)>(c: Config, ip: IP)
    requires c.Valid()
    ensures ReachesTwice(c, ip) <==> 2 * c.limit < c.window
  {
    hide Run, AdmittedDuring, TimeOrdered, TwoBursts;
    if 2 * c.limit < c.window {
      BoundIsTight(c, ip);
    }
    if ReachesTwice(c, ip) {
      var es: seq<Event<IP>>, from: int :|
        TimeOrdered(es) && AdmittedDuring(Run(c, map[], es), ip, from, c.window) == 2 * c.limit;
      RunHistory(c, es);
      TwiceNeedsTicks(c, Run(c, map[], es), ip, from);
    }
  }
}
