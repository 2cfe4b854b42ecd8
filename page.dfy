/** The waiters that packages/medkit/src/page.js adds to a Puppeteer page:
    `waitForResponse` settles on the first response whose method and URL
    match, `waitForURL` on the first poll of the page's location that
    matches, and both give up with "timeout" when their timer fires.
    Responses, polls and the passing of time are events fed to the waiter. */
module Page {
  import opened Base
  import opened PathPattern

  // ---------------------------------------------------------------------
  // mapKeys
  // ---------------------------------------------------------------------

  /** `mapKeys(keys, result)` on the first `n` keys: key `i` is bound to
      group `i + 1` when that group exists and is not null; a later key of
      the same name wins. */
  function KeyMapUpTo(keys: seq<string>, result: seq<Option<string>>, n: nat): map<string, string>
    requires n <= |keys|
  {
    if n == 0 then map[]
    else
      var m := KeyMapUpTo(keys, result, n - 1);
      if n < |result| && result[n].Some? then m[keys[n - 1] := result[n].value] else m
  }

  function KeyMap(keys: seq<string>, result: seq<Option<string>>): map<string, string>
  {
    KeyMapUpTo(keys, result, |keys|)
  }

  /** `mapKeys`: the `forEach` that fills the map. */
  method MapKeys(keys: seq<string>, result: seq<Option<string>>) returns (m: map<string, string>)
    ensures m == KeyMap(keys, result)
  {
    m := map[];
    for i := 0 to |keys|
      invariant m == KeyMapUpTo(keys, result, i)
    {
      if i + 1 < |result| {
        var value := result[i + 1];
        if value.Some? {
          m := m[keys[i] := value.value];
        }
      }
    }
  }

  /** Key `i` binds group `i + 1`. */
  predicate Binds(keys: seq<string>, result: seq<Option<string>>, i: int)
  {
    0 <= i < |keys| && i + 1 < |result| && result[i + 1].Some?
  }

  /** A name is in the map exactly when some key of that name binds a
      group. */
  lemma {:induction false} KeyMapUpToDomain(keys: seq<string>, result: seq<Option<string>>, n: nat, k: string)
    requires n <= |keys|
    ensures k in KeyMapUpTo(keys, result, n) <==> exists i :: 0 <= i < n && Binds(keys, result, i) && keys[i] == k
  {
    if n > 0 {
      KeyMapUpToDomain(keys, result, n - 1, k);
      if Binds(keys, result, n - 1) && keys[n - 1] == k {
        assert k in KeyMapUpTo(keys, result, n);
      }
    }
  }

  /** A bound name maps to the group of the last key of that name. */
  lemma {:induction false} KeyMapUpToValue(keys: seq<string>, result: seq<Option<string>>, n: nat, i: nat)
    requires i < n <= |keys| && Binds(keys, result, i)
    requires forall j :: i < j < n && Binds(keys, result, j) ==> keys[j] != keys[i]
    ensures keys[i] in KeyMapUpTo(keys, result, n) && KeyMapUpTo(keys, result, n)[keys[i]] == result[i + 1].value
  {
    if i < n - 1 {
      KeyMapUpToValue(keys, result, n - 1, i);
    }
  }

  lemma KeyMapMeaning(keys: seq<string>, result: seq<Option<string>>)
    ensures forall k :: k in KeyMap(keys, result) <==> exists i :: Binds(keys, result, i) && keys[i] == k
    ensures forall i ::
              Binds(keys, result, i) && (forall j :: i < j && Binds(keys, result, j) ==> keys[j] != keys[i])
              ==> KeyMap(keys, result)[keys[i]] == result[i + 1].value
  {
    forall k
      ensures k in KeyMap(keys, result) <==> exists i :: Binds(keys, result, i) && keys[i] == k
    {
      KeyMapUpToDomain(keys, result, |keys|, k);
    }
    forall i | Binds(keys, result, i) && (forall j :: i < j && Binds(keys, result, j) ==> keys[j] != keys[i])
      ensures KeyMap(keys, result)[keys[i]] == result[i + 1].value
    {
      KeyMapUpToValue(keys, result, |keys|, i);
    }
  }

  /** A match of a pattern gives every key its capture. */
  lemma MatchBindsAll(pat: seq<Segment>, s: string)
    requires Exec(pat, s).Some?
    ensures forall i :: 0 <= i < |Keys(pat)| ==> Binds(Keys(pat), Exec(pat, s).value, i)
  {
    ExecShape(pat, s);
  }

  /** The parameters a URL yields for a pattern. */
  function Params(pat: seq<Segment>, s: string): map<string, string>
    requires Exec(pat, s).Some?
  {
    KeyMap(Keys(pat), Exec(pat, s).value)
  }

  // ---------------------------------------------------------------------
  // Timers
  // ---------------------------------------------------------------------

  const DefaultTimeout: int := 10000

  /** The largest delay a Node.js timer honours; a longer one fires after
      1 ms. */
  const MaxTimerDelay: int := 2147483647

  /** `{timeout: 10000, ...options}`. */
  function TimeoutOf(timeout: Option<int>): int
  {
    if timeout.Some? then timeout.value else DefaultTimeout
  }

  /** The timer `setTimeout(f, t)` arms for `t > 0`: nothing for any other
      `t`, and 1 ms past the largest delay. */
  function ArmTimer(t: int): (r: Option<nat>)
    ensures r.Some? <==> t > 0
    ensures r.Some? ==> 1 <= r.value <= MaxTimerDelay && (t <= MaxTimerDelay ==> r.value == t)
  {
    if t <= 0 then None else if t > MaxTimerDelay then Some(1) else Some(t)
  }

  /** How a waiter ended. */
  datatype Outcome<T> = Pending | Resolved(value: T) | Rejected(reason: string)

  /** What `waitForResponse` resolves with. */
  datatype Reply = Reply(status: int, result: map<string, string>)

  // ---------------------------------------------------------------------
  // Decimal text, for "bad status: <status>"
  // ---------------------------------------------------------------------

  function DigitChar(d: nat): char
    requires d < 10
  {
    ('0' as int + d) as char
  }

  function NatToString(n: nat): (s: string)
    ensures |s| >= 1
    ensures forall i :: 0 <= i < |s| ==> '0' <= s[i] <= '9'
  {
    if n < 10 then [DigitChar(n)] else NatToString(n / 10) + [DigitChar(n % 10)]
  }

  function DecimalValue(s: string): int
    decreases |s|
  {
    if s == [] then 0 else DecimalValue(s[..|s| - 1]) * 10 + (s[|s| - 1] as int - '0' as int)
  }

  /** The status is written in decimal without leading zeros. */
  lemma {:induction false} NatToStringValue(n: nat)
    ensures DecimalValue(NatToString(n)) == n
    ensures NatToString(n)[0] == '0' ==> n == 0
  {
    if n >= 10 {
      NatToStringValue(n / 10);
      var s := NatToString(n);
      assert s == NatToString(n / 10) + [DigitChar(n % 10)];
      assert s[..|s| - 1] == NatToString(n / 10);
      assert s[0] == NatToString(n / 10)[0];
      assert DecimalValue(s) == DecimalValue(NatToString(n / 10)) * 10 + n % 10;
    }
  }

  function BadStatus(status: int): string
    requires status >= 400
  {
    "bad status: " + NatToString(status)
  }

  // ---------------------------------------------------------------------
  // waitForResponse
  // ---------------------------------------------------------------------

  /** The waiter's state: its outcome, whether its `response` listener is
      on the page, and the time left on its timer. */
  datatype ResponseWait = ResponseWait(outcome: Outcome<Reply>, listening: bool, timer: Option<nat>)

  datatype ResponseEvent =
    | Response(verb: string, url: string, status: int)
    | ResponseElapse(ms: nat)

  /** The start of `waitForResponse`: a GET for the URL the page is on
      resolves at once with 200 and arms nothing; otherwise the listener is
      put on and the timer armed. */
  function StartResponse(verb: string, pat: seq<Segment>, timeout: Option<int>, pageUrl: string): ResponseWait
  {
    if verb == "GET" && Exec(pat, pageUrl).Some? then
      ResponseWait(Resolved(Reply(200, Params(pat, pageUrl))), false, None)
    else
      ResponseWait(Pending, true, ArmTimer(TimeoutOf(timeout)))
  }

  /** What one event does to the waiter. */
  function ResponseStep(verb: string, pat: seq<Segment>, w: ResponseWait, e: ResponseEvent): ResponseWait
  {
    match e
    case Response(m, url, status) =>
      if !w.listening || m != verb || Exec(pat, url).None? then w
      else if status >= 400 then ResponseWait(Rejected(BadStatus(status)), false, None)
      else ResponseWait(Resolved(Reply(status, Params(pat, url))), false, None)
    case ResponseElapse(ms) =>
      if w.timer.None? then w
      else if w.timer.value <= ms then ResponseWait(Rejected("timeout"), false, None)
      else w.(timer := Some(w.timer.value - ms))
  }

  function ResponseRun(verb: string, pat: seq<Segment>, w: ResponseWait, events: seq<ResponseEvent>): ResponseWait
    decreases |events|
  {
    if events == [] then w
    else ResponseStep(verb, pat, ResponseRun(verb, pat, w, events[..|events| - 1]), events[|events| - 1])
  }

  /** Pending exactly while listening; a timer only while pending. */
  predicate ResponseValid(w: ResponseWait)
  {
    (w.outcome.Pending? <==> w.listening) && (w.timer.Some? ==> w.listening)
  }

  /** A response the waiter is listening for. */
  predicate Matches(verb: string, pat: seq<Segment>, e: ResponseEvent)
  {
    e.Response? && e.verb == verb && Exec(pat, e.url).Some?
  }

  lemma StartResponseValid(verb: string, pat: seq<Segment>, timeout: Option<int>, pageUrl: string)
    ensures ResponseValid(StartResponse(verb, pat, timeout, pageUrl))
    ensures var w := StartResponse(verb, pat, timeout, pageUrl);
      (verb == "GET" && Exec(pat, pageUrl).Some? ==>
         w.outcome == Resolved(Reply(200, Params(pat, pageUrl))) && !w.listening && w.timer.None?)
      && (!(verb == "GET" && Exec(pat, pageUrl).Some?) ==>
         w.outcome.Pending? && w.listening && (w.timer.Some? <==> TimeoutOf(timeout) > 0))
      && (timeout.None? && w.outcome.Pending? ==> w.timer == Some(DefaultTimeout))
  {
  }

  /** The response rule: an event that is not a matching response leaves a
      listening waiter listening; a matching one unsubscribes, clears the
      timer and decides by the status. */
  lemma ResponseRule(verb: string, pat: seq<Segment>, w: ResponseWait, e: ResponseEvent)
    requires ResponseValid(w) && w.outcome.Pending? && e.Response?
    ensures var w' := ResponseStep(verb, pat, w, e);
      (!Matches(verb, pat, e) ==> w' == w)
      && (Matches(verb, pat, e) ==>
        !w'.listening && w'.timer.None?
        && (e.status >= 400 ==> w'.outcome == Rejected(BadStatus(e.status)))
        && (e.status < 400 ==> w'.outcome == Resolved(Reply(e.status, Params(pat, e.url)))))
  {
  }

  /** The timer rule: a pending waiter gives up with "timeout" exactly when
      the time left runs out. */
  lemma ResponseTimeoutRule(verb: string, pat: seq<Segment>, w: ResponseWait, ms: nat)
    requires ResponseValid(w) && w.outcome.Pending?
    ensures var w' := ResponseStep(verb, pat, w, ResponseElapse(ms));
      (w.timer.Some? && w.timer.value <= ms ==> w' == ResponseWait(Rejected("timeout"), false, None))
      && (w'.outcome != w.outcome ==> w'.outcome == Rejected("timeout"))
      && (w.timer.None? ==> w' == w)
  {
  }

  lemma ResponseStepValid(verb: string, pat: seq<Segment>, w: ResponseWait, e: ResponseEvent)
    requires ResponseValid(w)
    ensures ResponseValid(ResponseStep(verb, pat, w, e))
  {
  }

  /** A settled waiter stays as it is, whatever comes after. */
  lemma {:induction false} ResponseSettled(verb: string, pat: seq<Segment>, w: ResponseWait, events: seq<ResponseEvent>)
    requires ResponseValid(w) && !w.outcome.Pending?
    ensures ResponseRun(verb, pat, w, events) == w
    decreases |events|
  {
    if events != [] {
      ResponseSettled(verb, pat, w, events[..|events| - 1]);
    }
  }

  lemma {:induction false} ResponseRunAppend(verb: string, pat: seq<Segment>, w: ResponseWait, a: seq<ResponseEvent>, b: seq<ResponseEvent>)
    ensures ResponseRun(verb, pat, w, a + b) == ResponseRun(verb, pat, ResponseRun(verb, pat, w, a), b)
    decreases |b|
  {
    if b == [] {
      assert a + b == a;
    } else {
      assert (a + b)[..|a + b| - 1] == a + b[..|b| - 1];
      ResponseRunAppend(verb, pat, w, a, b[..|b| - 1]);
    }
  }

  lemma {:induction false} ResponseRunValid(verb: string, pat: seq<Segment>, w: ResponseWait, events: seq<ResponseEvent>)
    requires ResponseValid(w)
    ensures ResponseValid(ResponseRun(verb, pat, w, events))
    decreases |events|
  {
    if events != [] {
      ResponseRunValid(verb, pat, w, events[..|events| - 1]);
      ResponseStepValid(verb, pat, ResponseRun(verb, pat, w, events[..|events| - 1]), events[|events| - 1]);
    }
  }

  /** The waiter settles once: the event that first settles it decides the
      outcome for good. */
  lemma FirstSettlingEventDecides(verb: string, pat: seq<Segment>, w: ResponseWait,
                                  before: seq<ResponseEvent>, e: ResponseEvent, after: seq<ResponseEvent>)
    requires ResponseValid(w)
    requires ResponseRun(verb, pat, w, before).outcome.Pending?
    requires !ResponseStep(verb, pat, ResponseRun(verb, pat, w, before), e).outcome.Pending?
    ensures ResponseRun(verb, pat, w, before + [e] + after)
      == ResponseStep(verb, pat, ResponseRun(verb, pat, w, before), e)
  {
    var mid := ResponseRun(verb, pat, w, before);
    ResponseRunAppend(verb, pat, w, before + [e], after);
    ResponseRunAppend(verb, pat, w, before, [e]);
    assert ResponseRun(verb, pat, mid, [e]) == ResponseStep(verb, pat, mid, e) by {
      assert [e][..0] == [];
    }
    ResponseRunValid(verb, pat, w, before);
    ResponseStepValid(verb, pat, mid, e);
    ResponseSettled(verb, pat, ResponseStep(verb, pat, mid, e), after);
  }

  /** Events that are not matching responses never resolve the waiter: it
      stays pending or gives up with "timeout". */
  lemma {:induction false} OnlyTimeoutWithoutMatch(verb: string, pat: seq<Segment>, w: ResponseWait, events: seq<ResponseEvent>)
    requires ResponseValid(w) && w.outcome.Pending?
    requires forall i :: 0 <= i < |events| ==> !Matches(verb, pat, events[i])
    ensures var r := ResponseRun(verb, pat, w, events);
      r.outcome.Pending? || r.outcome == Rejected("timeout")
    decreases |events|
  {
    if events != [] {
      var front := events[..|events| - 1];
      OnlyTimeoutWithoutMatch(verb, pat, w, front);
      ResponseRunValid(verb, pat, w, front);
    }
  }

  /** The test "destroy": reading a deleted post meets a 410 and the waiter
      rejects with "bad status: 410". */
  lemma DeletedPost(verb: string, pat: seq<Segment>, w: ResponseWait, url: string)
    requires ResponseValid(w) && w.outcome.Pending?
    requires Exec(pat, url).Some?
    ensures ResponseStep(verb, pat, w, Response(verb, url, 410)).outcome == Rejected("bad status: 410")
  {
    assert NatToString(410) == "410" by {
      assert NatToString(41) == "41" by {
        assert NatToString(4) == "4";
      }
    }
  }

  /** A `waitForResponse` call as an object fed events. */
  class ResponseWaiter {
    const verb: string
    const pattern: seq<Segment>
    var outcome: Outcome<Reply>
    var listening: bool
    var timer: Option<nat>

    function State(): ResponseWait
      reads this
    {
      ResponseWait(outcome, listening, timer)
    }

    constructor (verb: string, url: string, timeout: Option<int>, pageUrl: string)
      ensures this.verb == verb && pattern == Compile(url)
      ensures State() == StartResponse(verb, Compile(url), timeout, pageUrl)
    {
      this.verb := verb;
      var re := Compile(url);
      this.pattern := re;
      var t := TimeoutOf(timeout);
      var result := Exec(re, pageUrl);
      if verb == "GET" && result.Some? {
        var params := MapKeys(Keys(re), result.value);
        outcome := Resolved(Reply(200, params));
        listening := false;
        timer := None;
      } else {
        timer := if t > 0 then ArmTimer(t) else None;
        outcome := Pending;
        listening := true;
      }
    }

    /** The `response` listener. */
    method OnResponse(reqMethod: string, reqUrl: string, status: int)
      modifies this
      ensures State() == ResponseStep(verb, pattern, old(State()), Response(reqMethod, reqUrl, status))
    {
      if !listening {
        return;
      }
      var result := Exec(pattern, reqUrl);
      if reqMethod != verb || result.None? {
        return;
      }
      timer := None;
      listening := false;
      if status >= 400 {
        outcome := Rejected(BadStatus(status));
        return;
      }
      var params := MapKeys(Keys(pattern), result.value);
      outcome := Resolved(Reply(status, params));
    }

    /** Time passing; the timer callback when it runs out. */
    method Elapse(ms: nat)
      modifies this
      ensures State() == ResponseStep(verb, pattern, old(State()), ResponseElapse(ms))
    {
      if timer.None? {
        return;
      }
      if timer.value <= ms {
        listening := false;
        timer := None;
        outcome := Rejected("timeout");
      } else {
        timer := Some(timer.value - ms);
      }
    }
  }

  // ---------------------------------------------------------------------
  // waitForURL
  // ---------------------------------------------------------------------

  /** The waiter's state: its outcome, whether the interval still polls the
      page's location, and the time left on its timer. */
  datatype UrlWait = UrlWait(outcome: Outcome<map<string, string>>, polling: bool, timer: Option<nat>)

  datatype UrlEvent = Poll(href: string) | UrlElapse(ms: nat)

  function StartUrl(timeout: Option<int>): UrlWait
  {
    UrlWait(Pending, true, ArmTimer(TimeoutOf(timeout)))
  }

  function UrlStep(pat: seq<Segment>, w: UrlWait, e: UrlEvent): UrlWait
  {
    match e
    case Poll(href) =>
      if !w.polling || Exec(pat, href).None? then w
      else UrlWait(Resolved(Params(pat, href)), false, None)
    case UrlElapse(ms) =>
      if w.timer.None? then w
      else if w.timer.value <= ms then UrlWait(Rejected("timeout"), false, None)
      else w.(timer := Some(w.timer.value - ms))
  }

  function UrlRun(pat: seq<Segment>, w: UrlWait, events: seq<UrlEvent>): UrlWait
    decreases |events|
  {
    if events == [] then w else UrlStep(pat, UrlRun(pat, w, events[..|events| - 1]), events[|events| - 1])
  }

  predicate UrlValid(w: UrlWait)
  {
    (w.outcome.Pending? <==> w.polling) && (w.timer.Some? ==> w.polling)
  }

  /** A poll that does not match changes nothing; a matching one resolves
      with the parameters and stops both interval and timer; the timer
      running out stops the polling and rejects with "timeout". */
  lemma UrlRules(pat: seq<Segment>, w: UrlWait, e: UrlEvent)
    requires UrlValid(w) && w.outcome.Pending?
    ensures var w' := UrlStep(pat, w, e);
      UrlValid(w')
      && (e.Poll? && Exec(pat, e.href).None? ==> w' == w)
      && (e.Poll? && Exec(pat, e.href).Some? ==> w' == UrlWait(Resolved(Params(pat, e.href)), false, None))
      && (e.UrlElapse? && w.timer.Some? && w.timer.value <= e.ms ==> w' == UrlWait(Rejected("timeout"), false, None))
      && (e.UrlElapse? && w.timer.None? ==> w' == w)
  {
  }

  lemma StartUrlArms(timeout: Option<int>)
    ensures UrlValid(StartUrl(timeout)) && StartUrl(timeout).outcome.Pending?
    ensures StartUrl(timeout).timer.Some? <==> TimeoutOf(timeout) > 0
    ensures timeout.None? ==> StartUrl(timeout).timer == Some(DefaultTimeout)
  {
  }

  /** A settled URL waiter stays as it is, whatever comes after. */
  lemma {:induction false} UrlSettled(pat: seq<Segment>, w: UrlWait, events: seq<UrlEvent>)
    requires UrlValid(w) && !w.outcome.Pending?
    ensures UrlRun(pat, w, events) == w
    decreases |events|
  {
    if events != [] {
      UrlSettled(pat, w, events[..|events| - 1]);
    }
  }

  /** Without a timer the waiter never gives up: only a matching poll
      settles it. */
  lemma {:induction false} UrlWithoutTimer(pat: seq<Segment>, events: seq<UrlEvent>)
    requires forall i :: 0 <= i < |events| ==> events[i].Poll? ==> Exec(pat, events[i].href).None?
    ensures UrlRun(pat, UrlWait(Pending, true, None), events) == UrlWait(Pending, true, None)
    decreases |events|
  {
    if events != [] {
      UrlWithoutTimer(pat, events[..|events| - 1]);
    }
  }

  /** A `waitForURL` call as an object fed events. */
  class UrlWaiter {
    const pattern: seq<Segment>
    var outcome: Outcome<map<string, string>>
    var polling: bool
    var timer: Option<nat>

    function State(): UrlWait
      reads this
    {
      UrlWait(outcome, polling, timer)
    }

    constructor (url: string, timeout: Option<int>)
      ensures pattern == Compile(url)
      ensures State() == StartUrl(timeout)
    {
      pattern := Compile(url);
      var t := TimeoutOf(timeout);
      timer := if t > 0 then ArmTimer(t) else None;
      outcome := Pending;
      polling := true;
    }

    /** One tick of the interval, reading `window.location.href`. */
    method OnPoll(href: string)
      modifies this
      ensures State() == UrlStep(pattern, old(State()), Poll(href))
    {
      if !polling {
        return;
      }
      var result := Exec(pattern, href);
      if result.None? {
        return;
      }
      timer := None;
      polling := false;
      var params := MapKeys(Keys(pattern), result.value);
      outcome := Resolved(params);
    }

    method Elapse(ms: nat)
      modifies this
      ensures State() == UrlStep(pattern, old(State()), UrlElapse(ms))
    {
      if timer.None? {
        return;
      }
      if timer.value <= ms {
        polling := false;
        timer := None;
        outcome := Rejected("timeout");
      } else {
        timer := Some(timer.value - ms);
      }
    }
  }
}
