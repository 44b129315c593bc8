/**
 * The daily mailing (`send_daily` in bot.py): one pass over a snapshot of
 * the `users` table that fetches each sign's forecast once, caching it for
 * the rest of the pass, and makes one send attempt per subscriber.
 *
 * The forecast source and the Telegram transport are oracles. `fetch(sign, n)`
 * is what the n-th `get_horoscope` call of the pass gives: a page's text
 * (which may be the fallback "Не удалось получить прогноз"), or an exception
 * out of the HTTP request. `send(chatId, message, n)` tells whether the send
 * attempt for the n-th subscriber succeeds.
 */
module Dispatch {
  import opened Wrappers
  import opened Signs
  import opened Format
  import opened Registration

  /** The result of one `get_horoscope` call. */
  datatype FetchOutcome = Page(text: string) | Raised

  /** One subscriber's turn in the pass: the message built, if any, and whether it went out. */
  datatype Attempt = Attempt(chatId: int, message: Option<string>, delivered: bool)

  ghost predicate NoDuplicates(xs: seq<string>) {
    forall i, j :: 0 <= i < j < |xs| ==> xs[i] != xs[j]
  }

  /** The signs of the first `n` subscribers of a snapshot. */
  function SignsOf(rows: seq<(int, string)>, n: nat): set<string>
    requires n <= |rows|
  {
    set j | 0 <= j < n :: rows[j].1
  }

  lemma SignsOfStep(rows: seq<(int, string)>, n: nat)
    requires n < |rows|
    ensures SignsOf(rows, n + 1) == SignsOf(rows, n) + {rows[n].1}
  {
    forall s | s in SignsOf(rows, n + 1) ensures s in SignsOf(rows, n) + {rows[n].1} {
      var j :| 0 <= j < n + 1 && rows[j].1 == s;
    }
  }

  /**
   * The signs of the first `n` subscribers, each once, in the order a pass
   * meets them first: the order in which the pass fetches them.
   */
  function FetchOrder(rows: seq<(int, string)>, n: nat): (order: seq<string>)
    requires n <= |rows|
    ensures |order| <= n
  {
    if n == 0 then []
    else
      var before := FetchOrder(rows, n - 1);
      if rows[n - 1].1 in before then before else before + [rows[n - 1].1]
  }

  /** The fetch order holds the signs of those subscribers, and none twice. */
  lemma {:induction false} FetchOrderElements(rows: seq<(int, string)>, n: nat)
    requires n <= |rows|
    ensures forall s :: s in FetchOrder(rows, n) <==> s in SignsOf(rows, n)
    ensures NoDuplicates(FetchOrder(rows, n))
  {
    if n > 0 {
      FetchOrderElements(rows, n - 1);
      SignsOfStep(rows, n - 1);
    }
  }

  /** How often `x` occurs in `xs`. */
  function Count(xs: seq<string>, x: string): nat {
    if xs == [] then 0
    else Count(xs[..|xs| - 1], x) + (if xs[|xs| - 1] == x then 1 else 0)
  }

  lemma {:induction false} CountNoDuplicates(xs: seq<string>, x: string)
    requires NoDuplicates(xs)
    ensures Count(xs, x) == if x in xs then 1 else 0
  {
    if xs != [] {
      NoDuplicatesInit(xs);
      CountNoDuplicates(xs[..|xs| - 1], x);
      assert xs == xs[..|xs| - 1] + [xs[|xs| - 1]];
    }
  }

  /** Without duplicates, all but the last element have none either, and the last is not among them. */
  lemma NoDuplicatesInit(xs: seq<string>)
    requires NoDuplicates(xs) && xs != []
    ensures NoDuplicates(xs[..|xs| - 1]) && xs[|xs| - 1] !in xs[..|xs| - 1]
  {
    var init := xs[..|xs| - 1];
    forall i, j | 0 <= i < j < |init| ensures init[i] != init[j] {
      assert init[i] == xs[i] && init[j] == xs[j];
    }
    forall i | 0 <= i < |init| ensures init[i] != xs[|xs| - 1] {
      assert init[i] == xs[i];
    }
  }

  /**
   * Memoisation in numbers: the fetch order of `n` subscribers names each of
   * their signs exactly once and nothing else, so it is as long as the
   * number of distinct signs among them, however many subscribers share one.
   */
  lemma FetchOrderOncePerSign(rows: seq<(int, string)>, n: nat)
    requires n <= |rows|
    ensures forall s :: Count(FetchOrder(rows, n), s) == if s in SignsOf(rows, n) then 1 else 0
    ensures |FetchOrder(rows, n)| == |SignsOf(rows, n)|
  {
    FetchOrderElements(rows, n);
    forall s ensures Count(FetchOrder(rows, n), s) == if s in SignsOf(rows, n) then 1 else 0 {
      CountNoDuplicates(FetchOrder(rows, n), s);
    }
    FetchOrderLength(rows, n);
  }

  /** The fetch order is as long as the set of distinct signs it covers. */
  lemma {:induction false} FetchOrderLength(rows: seq<(int, string)>, n: nat)
    requires n <= |rows|
    ensures |FetchOrder(rows, n)| == |SignsOf(rows, n)|
  {
    if n > 0 {
      var before, x := SignsOf(rows, n - 1), rows[n - 1].1;
      FetchOrderLength(rows, n - 1);
      assert x in FetchOrder(rows, n - 1) <==> x in before by {
        FetchOrderElements(rows, n - 1);
      }
      SignsOfStep(rows, n - 1);
      if x in before {
        assert SignsOf(rows, n) == before;
      } else {
        assert |before + {x}| == |before| + 1;
      }
    }
  }

  /** The fetch order of fewer subscribers is a prefix of that of more. */
  lemma {:induction false} FetchOrderPrefix(rows: seq<(int, string)>, m: nat, n: nat)
    requires m <= n <= |rows|
    ensures FetchOrder(rows, m) <= FetchOrder(rows, n)
  {
    if m < n {
      FetchOrderPrefix(rows, m, n - 1);
    }
  }

  /**
   * What a pass over `rows` did, given `fetch` and `send`: it fetched the
   * signs in `fetched`, made the attempts in `attempts`, and ran to the end
   * exactly when `completed`.
   *  - The i-th fetch of the pass is of the i-th distinct sign of the rows
   *    reached, and is the only fetch of that sign.
   *  - Only a fetch exception ends a pass early: the pass stops at the first
   *    subscriber of the first sign whose fetch raised, before that
   *    subscriber's attempt; every fetch before it gave a page.
   *  - Every subscriber reached gets one attempt, in snapshot order, with the
   *    message formatted from the one page fetched for its sign; a sign
   *    missing from the table gets no message and no send (`format_msg`
   *    raises inside the `try`). A failed send changes nothing but its own
   *    `delivered` flag.
   */
  ghost predicate IsPass(rows: seq<(int, string)>, fetch: (string, nat) -> FetchOutcome, send: (int, string, nat) -> bool,
                         fetched: seq<string>, attempts: seq<Attempt>, completed: bool)
  {
    && |attempts| <= |rows|
    && (completed ==> |attempts| == |rows| && fetched == FetchOrder(rows, |rows|))
    && (!completed ==>
          && |attempts| < |rows|
          && fetched == FetchOrder(rows, |attempts| + 1)
          && rows[|attempts|].1 !in SignsOf(rows, |attempts|)
          && fetched != [] && fetched[|fetched| - 1] == rows[|attempts|].1)
    && (forall k :: 0 <= k < |fetched| ==> (fetch(fetched[k], k).Raised? <==> !completed && k == |fetched| - 1))
    && (forall j :: 0 <= j < |attempts| ==> rows[j].1 in fetched)
    && (forall j, k :: 0 <= j < |attempts| && 0 <= k < |fetched| && fetched[k] == rows[j].1 ==>
          fetch(fetched[k], k).Page? && attempts[j] == SendAttempt(rows[j].0, rows[j].1, fetch(fetched[k], k).text, send, j))
  }

  /** The `try` block for one subscriber, given the cached forecast of its sign. */
  function SendAttempt(chatId: int, sign: string, forecast: string, send: (int, string, nat) -> bool, n: nat): (a: Attempt)
    ensures a.chatId == chatId
    ensures a.message.Some? <==> IsSign(sign)
    ensures a.message.Some? ==> a.message.value == FormatMsg(sign, forecast)
    ensures a.delivered <==> a.message.Some? && send(chatId, a.message.value, n)
  {
    if IsSign(sign) then
      var message := FormatMsg(sign, forecast);
      Attempt(chatId, Some(message), send(chatId, message, n))
    else
      Attempt(chatId, None, false)
  }

  /**
   * The state of a pass after its first `i` subscribers: the fetch log, the
   * cache holding exactly the logged signs with the page each one's fetch
   * gave, and one attempt per subscriber so far.
   */
  ghost predicate PassPrefix(rows: seq<(int, string)>, i: nat, fetch: (string, nat) -> FetchOutcome, send: (int, string, nat) -> bool,
                             fetched: seq<string>, cache: map<string, string>, attempts: seq<Attempt>)
  {
    && i <= |rows| && |attempts| == i
    && fetched == FetchOrder(rows, i)
    && (forall s :: s in fetched ==> s in cache)
    && (forall s :: s in cache ==> s in fetched)
    && (forall k :: 0 <= k < |fetched| ==> fetch(fetched[k], k).Page? && cache[fetched[k]] == fetch(fetched[k], k).text)
    && (forall j :: 0 <= j < i ==> rows[j].1 in fetched)
    && (forall j, k :: 0 <= j < i && 0 <= k < |fetched| && fetched[k] == rows[j].1 ==>
          attempts[j] == SendAttempt(rows[j].0, rows[j].1, fetch(fetched[k], k).text, send, j))
  }

  /** A subscriber whose sign is cached: one attempt with the cached page, nothing fetched. */
  lemma CachedStep(rows: seq<(int, string)>, i: nat, fetch: (string, nat) -> FetchOutcome, send: (int, string, nat) -> bool,
                   fetched: seq<string>, cache: map<string, string>, attempts: seq<Attempt>)
    requires i < |rows| && PassPrefix(rows, i, fetch, send, fetched, cache, attempts)
    requires rows[i].1 in cache
    ensures PassPrefix(rows, i + 1, fetch, send, fetched, cache,
                       attempts + [SendAttempt(rows[i].0, rows[i].1, cache[rows[i].1], send, i)])
  {
  }

  /** A subscriber whose sign is new and whose fetch gives a page: it is logged and cached. */
  lemma FetchStep(rows: seq<(int, string)>, i: nat, fetch: (string, nat) -> FetchOutcome, send: (int, string, nat) -> bool,
                  fetched: seq<string>, cache: map<string, string>, attempts: seq<Attempt>)
    requires i < |rows| && PassPrefix(rows, i, fetch, send, fetched, cache, attempts)
    requires rows[i].1 !in cache && fetch(rows[i].1, |fetched|).Page?
    ensures var sign, page := rows[i].1, fetch(rows[i].1, |fetched|).text;
      PassPrefix(rows, i + 1, fetch, send, fetched + [sign], cache[sign := page],
                 attempts + [SendAttempt(rows[i].0, sign, page, send, i)])
  {
    var sign, page := rows[i].1, fetch(rows[i].1, |fetched|).text;
    var longer, bigger := fetched + [sign], cache[sign := page];
    var more := attempts + [SendAttempt(rows[i].0, sign, page, send, i)];
    assert longer[|fetched|] == sign;
    assert forall k :: 0 <= k < |fetched| ==> longer[k] == fetched[k] && fetched[k] != sign;
    assert forall k :: 0 <= k < |longer| ==> fetch(longer[k], k).Page? && bigger[longer[k]] == fetch(longer[k], k).text;
    forall j, k | 0 <= j < i + 1 && 0 <= k < |longer| && longer[k] == rows[j].1
      ensures more[j] == SendAttempt(rows[j].0, rows[j].1, fetch(longer[k], k).text, send, j)
    {
      if j < i {
        assert rows[j].1 in fetched;
        assert k < |fetched|;
      } else {
        assert k == |fetched|;
      }
    }
  }

  /** A subscriber whose sign is new and whose fetch raises: the pass ends there. */
  lemma AbortStep(rows: seq<(int, string)>, i: nat, fetch: (string, nat) -> FetchOutcome, send: (int, string, nat) -> bool,
                  fetched: seq<string>, cache: map<string, string>, attempts: seq<Attempt>)
    requires i < |rows| && PassPrefix(rows, i, fetch, send, fetched, cache, attempts)
    requires rows[i].1 !in cache && fetch(rows[i].1, |fetched|).Raised?
    ensures IsPass(rows, fetch, send, fetched + [rows[i].1], attempts, false)
  {
    var sign := rows[i].1;
    var longer := fetched + [sign];
    assert sign !in SignsOf(rows, i) by {
      FetchOrderElements(rows, i);
    }
    assert longer == FetchOrder(rows, i + 1);
    assert forall k :: 0 <= k < |fetched| ==> longer[k] == fetched[k] && fetched[k] != sign;
    assert longer[|fetched|] == sign;
  }

  /** After the last subscriber the pass is complete. */
  lemma EndOfPass(rows: seq<(int, string)>, fetch: (string, nat) -> FetchOutcome, send: (int, string, nat) -> bool,
                  fetched: seq<string>, cache: map<string, string>, attempts: seq<Attempt>)
    requires PassPrefix(rows, |rows|, fetch, send, fetched, cache, attempts)
    ensures IsPass(rows, fetch, send, fetched, attempts, true)
  {
  }

  /**
   * A subscriber's message names its sign and carries the cached forecast
   * verbatim: reading it back gives exactly the pair it was built from.
   */
  lemma AttemptCarriesForecast(chatId: int, sign: string, forecast: string, send: (int, string, nat) -> bool, n: nat)
    requires IsSign(sign)
    ensures var a := SendAttempt(chatId, sign, forecast, send, n);
      a.message.Some? && ParseMsg(a.message.value) == Some((sign, forecast))
  {
    ParseFormatMsg(sign, forecast);
  }

  /** The state the loop carries from one subscriber to the next. */
  datatype Progress = Progress(fetched: seq<string>, cache: map<string, string>, attempts: seq<Attempt>)

  /**
   * The state of a pass after its first `n` subscribers, turn by turn, or
   * None once a fetch has raised.
   */
  ghost function Replay(rows: seq<(int, string)>, fetch: (string, nat) -> FetchOutcome, send: (int, string, nat) -> bool, n: nat): Option<Progress>
    requires n <= |rows|
  {
    if n == 0 then Some(Progress([], map[], []))
    else
      match Replay(rows, fetch, send, n - 1)
      case None => None
      case Some(p) =>
        var (chatId, sign) := rows[n - 1];
        if sign in p.cache then
          Some(Progress(p.fetched, p.cache, p.attempts + [SendAttempt(chatId, sign, p.cache[sign], send, n - 1)]))
        else
          match fetch(sign, |p.fetched|)
          case Raised => None
          case Page(text) =>
            Some(Progress(p.fetched + [sign], p.cache[sign := text], p.attempts + [SendAttempt(chatId, sign, text, send, n - 1)]))
  }

  /** Every state the turns reach without a raised fetch is a prefix of a pass. */
  lemma {:induction false} ReplayIsPrefix(rows: seq<(int, string)>, fetch: (string, nat) -> FetchOutcome, send: (int, string, nat) -> bool, n: nat)
    requires n <= |rows| && Replay(rows, fetch, send, n).Some?
    ensures var p := Replay(rows, fetch, send, n).value;
      PassPrefix(rows, n, fetch, send, p.fetched, p.cache, p.attempts)
  {
    if n > 0 {
      ReplayIsPrefix(rows, fetch, send, n - 1);
      var p := Replay(rows, fetch, send, n - 1).value;
      if rows[n - 1].1 in p.cache {
        CachedStep(rows, n - 1, fetch, send, p.fetched, p.cache, p.attempts);
      } else {
        FetchStep(rows, n - 1, fetch, send, p.fetched, p.cache, p.attempts);
      }
    }
  }

  /**
   * The loop of `send_daily` over a snapshot: fills the per-pass cache on a
   * sign's first subscriber and attempts one send per subscriber, swallowing
   * any failure of the attempt. A fetch exception is not caught: it ends the
   * pass.
   */
  method Pass(rows: seq<(int, string)>, fetch: (string, nat) -> FetchOutcome, send: (int, string, nat) -> bool)
    returns (fetched: seq<string>, attempts: seq<Attempt>, completed: bool)
    ensures IsPass(rows, fetch, send, fetched, attempts, completed)
  {
    fetched, attempts, completed := [], [], true;
    var cache: map<string, string> := map[];
    var i := 0;
    while i < |rows|
      invariant i <= |rows|
      invariant Replay(rows, fetch, send, i) == Some(Progress(fetched, cache, attempts))
    {
      var chatId, sign := rows[i].0, rows[i].1;
      if sign !in cache {
        var outcome := fetch(sign, |fetched|);
        if outcome.Raised? {
          ReplayIsPrefix(rows, fetch, send, i);
          AbortStep(rows, i, fetch, send, fetched, cache, attempts);
          return fetched + [sign], attempts, false;
        }
        fetched := fetched + [sign];
        cache := cache[sign := outcome.text];
      }
      // try: format_msg, then send_message; except: pass
      attempts := attempts + [SendAttempt(chatId, sign, cache[sign], send, i)];
      i := i + 1;
    }
    ReplayIsPrefix(rows, fetch, send, i);
    EndOfPass(rows, fetch, send, fetched, cache, attempts);
  }

  /**
   * A completed pass fetched each distinct sign of the snapshot exactly once:
   * as many fetches as there are distinct signs, whatever the number of
   * subscribers.
   */
  lemma CompletedPassFetchesEachSignOnce(rows: seq<(int, string)>, fetch: (string, nat) -> FetchOutcome, send: (int, string, nat) -> bool,
                                         fetched: seq<string>, attempts: seq<Attempt>)
    requires IsPass(rows, fetch, send, fetched, attempts, true)
    ensures |fetched| == |SignsOf(rows, |rows|)|
    ensures forall s :: Count(fetched, s) == if s in SignsOf(rows, |rows|) then 1 else 0
  {
    FetchOrderOncePerSign(rows, |rows|);
  }

  /** When no fetch raises, the pass reaches every subscriber of the snapshot. */
  lemma PageFetchesReachEveryone(rows: seq<(int, string)>, fetch: (string, nat) -> FetchOutcome, send: (int, string, nat) -> bool,
                                 fetched: seq<string>, attempts: seq<Attempt>, completed: bool)
    requires IsPass(rows, fetch, send, fetched, attempts, completed)
    requires forall s, k :: fetch(s, k).Page?
    ensures completed && |attempts| == |rows|
  {
    AbortedPassFacts(rows, fetch, send, fetched, attempts, completed);
  }

  /** Subscribers of the same sign receive identical text. */
  lemma SameSignSameMessage(rows: seq<(int, string)>, fetch: (string, nat) -> FetchOutcome, send: (int, string, nat) -> bool,
                            fetched: seq<string>, attempts: seq<Attempt>, completed: bool, i: nat, j: nat)
    requires IsPass(rows, fetch, send, fetched, attempts, completed)
    requires i < |attempts| && j < |attempts| && rows[i].1 == rows[j].1
    ensures attempts[i].message == attempts[j].message
  {
    var k :| 0 <= k < |fetched| && fetched[k] == rows[i].1;
  }

  /** An aborted pass fetched a prefix of the full fetch order, one sign past its last attempt, and the last fetch raised. */
  lemma AbortedPassFacts(rows: seq<(int, string)>, fetch: (string, nat) -> FetchOutcome, send: (int, string, nat) -> bool,
                         fetched: seq<string>, attempts: seq<Attempt>, completed: bool)
    requires IsPass(rows, fetch, send, fetched, attempts, completed)
    ensures !completed ==>
      && 0 < |fetched| <= |FetchOrder(rows, |rows|)|
      && fetched <= FetchOrder(rows, |rows|)
      && fetch(fetched[|fetched| - 1], |fetched| - 1).Raised?
      && fetch(FetchOrder(rows, |rows|)[|fetched| - 1], |fetched| - 1).Raised?
      && FetchOrder(rows, |attempts|) <= fetched
      && |fetched| == |FetchOrder(rows, |attempts|)| + 1
  {
    if !completed {
      FetchOrderPrefix(rows, |attempts| + 1, |rows|);
      FetchOrderElements(rows, |attempts|);
    }
  }

  /** The fetch order up to the subscriber after `i` is a prefix of the order up to any later `j`. */
  lemma OrderBefore(rows: seq<(int, string)>, i: nat, j: nat)
    requires i <= |rows| && j <= |rows|
    ensures i < j ==> FetchOrder(rows, i + 1) <= FetchOrder(rows, j)
  {
    if i < j {
      FetchOrderPrefix(rows, i + 1, j);
    }
  }

  /**
   * Fault isolation: how sends turn out never changes a pass's fetches, how
   * far it gets, who gets an attempt, or which message each one is sent; it
   * changes only the `delivered` flags.
   */
  lemma SendOutcomesIsolated(rows: seq<(int, string)>, fetch: (string, nat) -> FetchOutcome,
                             send1: (int, string, nat) -> bool, fetched1: seq<string>, attempts1: seq<Attempt>, completed1: bool,
                             send2: (int, string, nat) -> bool, fetched2: seq<string>, attempts2: seq<Attempt>, completed2: bool)
    requires IsPass(rows, fetch, send1, fetched1, attempts1, completed1)
    requires IsPass(rows, fetch, send2, fetched2, attempts2, completed2)
    ensures fetched1 == fetched2 && completed1 == completed2 && |attempts1| == |attempts2|
    ensures forall j :: 0 <= j < |attempts1| ==>
      attempts1[j].chatId == attempts2[j].chatId && attempts1[j].message == attempts2[j].message
  {
    AbortedPassFacts(rows, fetch, send1, fetched1, attempts1, completed1);
    AbortedPassFacts(rows, fetch, send2, fetched2, attempts2, completed2);
    OrderBefore(rows, |attempts1|, |attempts2|);
    OrderBefore(rows, |attempts2|, |attempts1|);
    forall j | 0 <= j < |attempts1|
      ensures attempts1[j].chatId == attempts2[j].chatId && attempts1[j].message == attempts2[j].message
    {
      var k :| 0 <= k < |fetched1| && fetched1[k] == rows[j].1;
    }
  }

  /**
   * `send_daily`: reads the table with `SELECT chat_id, zodiac FROM users`
   * and runs the pass over what it read. Every row holds a valid sign, so
   * every subscriber reached gets a formatted message.
   */
  method SendDaily(store: SubscriptionStore, fetch: (string, nat) -> FetchOutcome, send: (int, string, nat) -> bool)
    returns (rows: seq<(int, string)>, fetched: seq<string>, attempts: seq<Attempt>, completed: bool)
    requires store.Valid()
    ensures IsSnapshotOf(rows, store.users)
    ensures IsPass(rows, fetch, send, fetched, attempts, completed)
    ensures forall j :: 0 <= j < |attempts| ==> attempts[j].message.Some?
  {
    rows := store.ListAll();
    fetched, attempts, completed := Pass(rows, fetch, send);
  }
}
