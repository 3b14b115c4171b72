/** Following redirects: the loop of `request`, against any server. */
module Redirects {
  import opened ByteStrings
  import opened Requests

  /** One request of a run, before its URL is split. */
  datatype Req = Req(verb: string, url: string, headers: Option<seq<Header>>, body: Option<Bytes>)

  /** What `_perform` made of it. */
  datatype Reply = Answered(code: nat, location: Option<string>) | Raised

  datatype Outcome = Returned(reply: Reply) | TooManyRedirects | PerformRaised

  function UpperChar(c: char): char {
    if 'a' <= c <= 'z' then (c as int - 32) as char else c
  }

  /** `method.upper()`, on ASCII letters. */
  function Upper(s: string): (r: string)
    ensures |r| == |s| && forall i :: 0 <= i < |s| ==> r[i] == UpperChar(s[i])
  {
    seq(|s|, i requires 0 <= i < |s| => UpperChar(s[i]))
  }

  predicate IsRedirect(code: nat) {
    code == 301 || code == 302 || code == 303 || code == 307 || code == 308
  }

  /** Section 15.4 of RFC 9110, as browsers apply it. */
  function NextVerb(verb: string, code: nat): string {
    if (code == 303 && verb != "HEAD") || ((code == 301 || code == 302) && verb == "POST") then "GET" else verb
  }

  function NextRedirect(verb: string, url: string, reply: Reply, join: (string, string) -> string)
    : Option<(string, string)>
  {
    if reply.Raised? || !IsRedirect(reply.code) || reply.location.None? || reply.location.value == "" then None
    else Some((NextVerb(Upper(verb), reply.code), join(url, reply.location.value)))
  }

  predicate IsBodyHeader(name: string) {
    name == "content-length" || name == "content-type" || name == "transfer-encoding"
  }

  function KeepHeaders(headers: seq<Header>): seq<Header> {
    if headers == [] then []
    else
      var rest := KeepHeaders(headers[..|headers| - 1]);
      var last := headers[|headers| - 1];
      if IsBodyHeader(LowerStr(last.name)) then rest else rest + [last]
  }

  function StripBodyHeaders(headers: Option<seq<Header>>): Option<seq<Header>> {
    if headers.None? || headers.value == [] then None else Some(KeepHeaders(headers.value))
  }

  /** The request that follows `r`, when `next` is where it is sent. */
  function Redirected(r: Req, next: (string, string)): Req {
    if next.0 != r.verb then Req(next.0, next.1, StripBodyHeaders(r.headers), None)
    else r.(url := next.1)
  }

  datatype Run = Run(trace: seq<Req>, outcome: Outcome)

  /** Everything a run sends from `r` on, with `seen` redirects behind it; `server` is asked with the step number. */
  function Follow(
    r: Req, seen: nat, follow: bool, max: int, server: (nat, Req) -> Reply, join: (string, string) -> string): Run
    decreases if seen < max then max - seen else 0
  {
    var reply := server(seen, r);
    if reply.Raised? then Run([r], PerformRaised)
    else
      match if follow then NextRedirect(r.verb, r.url, reply, join) else None
      case None => Run([r], Returned(reply))
      case Some(next) =>
        if seen >= max then Run([r], TooManyRedirects)
        else
          var rest := Follow(Redirected(r, next), seen + 1, follow, max, server, join);
          Run([r] + rest.trace, rest.outcome)
  }

  method RunRequest(
    verb: string, url: string, headers: Option<seq<Header>>, body: Option<Bytes>, follow: bool, max: int,
    server: (nat, Req) -> Reply, join: (string, string) -> string)
    returns (trace: seq<Req>, outcome: Outcome)
    ensures Run(trace, outcome) == Follow(Req(Upper(verb), url, headers, body), 0, follow, max, server, join)
  {
    var r := Req(Upper(verb), url, headers, body);
    ghost var first := r;
    trace := [];
    var seen := 0;
    while true
      invariant Follow(first, 0, follow, max, server, join).trace
             == trace + Follow(r, seen, follow, max, server, join).trace
      invariant Follow(first, 0, follow, max, server, join).outcome
             == Follow(r, seen, follow, max, server, join).outcome
      decreases max - seen
    {
      trace := trace + [r];
      var reply := server(seen, r);
      if reply.Raised? {
        return trace, PerformRaised;
      }
      var next := if follow then NextRedirect(r.verb, r.url, reply, join) else None;
      if next.None? {
        return trace, Returned(reply);
      }
      if seen >= max {
        return trace, TooManyRedirects;
      }
      var (newVerb, newUrl) := next.value;
      if newVerb != r.verb {
        r := Req(newVerb, newUrl, StripBodyHeaders(r.headers), None);
      } else {
        r := r.(url := newUrl);
      }
      seen := seen + 1;
    }
  }

  function Budget(seen: nat, max: int): nat {
    if seen < max then max - seen else 0
  }

  /** A run sends at most max(0, max_redirects) + 1 requests, and raises exactly when one more redirect follows. */
  lemma {:induction false} RedirectBudget(
    r: Req, seen: nat, follow: bool, max: int, server: (nat, Req) -> Reply, join: (string, string) -> string)
    ensures var run := Follow(r, seen, follow, max, server, join);
      && 1 <= |run.trace| <= Budget(seen, max) + 1
      && var last := run.trace[|run.trace| - 1]; var reply := server(seen + |run.trace| - 1, last);
         (run.outcome == TooManyRedirects <==>
            |run.trace| == Budget(seen, max) + 1 && follow && NextRedirect(last.verb, last.url, reply, join).Some?)
    decreases Budget(seen, max)
  {
    hide Redirected, NextVerb, Upper;
    var reply := server(seen, r);
    var next := if follow then NextRedirect(r.verb, r.url, reply, join) else None;
    if !reply.Raised? && next.Some? && seen < max {
      RedirectBudget(Redirected(r, next.value), seen + 1, follow, max, server, join);
    }
  }

  lemma UpperTwice(s: string)
    requires forall i :: 0 <= i < |s| ==> !('a' <= s[i] <= 'z')
    ensures Upper(s) == s
  {
  }

  predicate IsUpper(s: string) {
    forall i :: 0 <= i < |s| ==> !('a' <= s[i] <= 'z')
  }

  /** The original request on another URL. */
  predicate Original(first: Req, r: Req) {
    r.verb == first.verb && r.headers == first.headers && r.body == first.body
  }

  /** The headers that `_perform` is given: none and an empty mapping are the same to it. */
  function Given(r: Req): seq<Header> {
    if r.headers.Some? then r.headers.value else []
  }

  /** The request rewritten to a GET: no body, and of the headers those that do not describe one. */
  predicate Rewritten(first: Req, r: Req) {
    r.verb == "GET" && r.body == None && Given(r) == KeepHeaders(Given(first))
  }

  predicate RewrittenFrom(first: Req, trace: seq<Req>, m: int) {
    && (forall k :: 0 <= k < |trace| && k < m ==> Original(first, trace[k]))
    && (forall k :: 0 <= k < |trace| && m <= k ==> Rewritten(first, trace[k]))
  }

  lemma {:induction false} StaysRewritten(
    first: Req, r: Req, seen: nat, follow: bool, max: int, server: (nat, Req) -> Reply,
    join: (string, string) -> string)
    requires Rewritten(first, r)
    ensures RewrittenFrom(first, Follow(r, seen, follow, max, server, join).trace, 0)
    decreases Budget(seen, max)
  {
    var reply := server(seen, r);
    var next := if follow then NextRedirect(r.verb, r.url, reply, join) else None;
    if !reply.Raised? && next.Some? && seen < max {
      UpperTwice(r.verb);
      var r' := Redirected(r, next.value);
      StaysRewritten(first, r', seen + 1, follow, max, server, join);
      assert Follow(r, seen, follow, max, server, join).trace
          == [r] + Follow(r', seen + 1, follow, max, server, join).trace;
    } else {
      assert Follow(r, seen, follow, max, server, join).trace == [r];
    }
  }

  /** From some request on, and only from there on, the run is the rewritten one. */
  ghost predicate RewrittenSomewhere(first: Req, trace: seq<Req>) {
    exists m: nat :: m <= |trace| && RewrittenFrom(first, trace, m)
  }

  lemma OriginalFirst(first: Req, r: Req, tail: seq<Req>, m: nat)
    requires Original(first, r) && m <= |tail| && RewrittenFrom(first, tail, m)
    ensures RewrittenSomewhere(first, [r] + tail)
  {
    var trace := [r] + tail;
    assert forall k :: 1 <= k < |trace| ==> trace[k] == tail[k - 1];
    assert RewrittenFrom(first, trace, m + 1);
  }

  /**
   * The method is rewritten at most once in a run, only to GET: up to some point every request is the original on
   * another URL, and from there on every one is the rewritten GET.
   */
  lemma {:induction false} RewrittenOnce(
    first: Req, r: Req, seen: nat, follow: bool, max: int, server: (nat, Req) -> Reply,
    join: (string, string) -> string)
    requires IsUpper(first.verb) && Original(first, r)
    ensures RewrittenSomewhere(first, Follow(r, seen, follow, max, server, join).trace)
    decreases Budget(seen, max)
  {
    hide RewrittenFrom, RewrittenSomewhere;
    var reply := server(seen, r);
    var next := if follow then NextRedirect(r.verb, r.url, reply, join) else None;
    if !reply.Raised? && next.Some? && seen < max {
      UpperTwice(r.verb);
      var r' := Redirected(r, next.value);
      var tail := Follow(r', seen + 1, follow, max, server, join).trace;
      if next.value.0 == r.verb {
        RewrittenOnce(first, r', seen + 1, follow, max, server, join);
        OriginalThen(first, r, tail);
      } else {
        StaysRewritten(first, r', seen + 1, follow, max, server, join);
        OriginalFirst(first, r, tail, 0);
      }
    } else {
      NoneLeft(first);
      OriginalFirst(first, r, [], 0);
      assert [r] + [] == [r];
    }
  }

  lemma NoneLeft(first: Req)
    ensures RewrittenFrom(first, [], 0)
  {
  }

  lemma OriginalThen(first: Req, r: Req, tail: seq<Req>)
    requires Original(first, r) && RewrittenSomewhere(first, tail)
    ensures RewrittenSomewhere(first, [r] + tail)
  {
    var m: nat :| m <= |tail| && RewrittenFrom(first, tail, m);
    OriginalFirst(first, r, tail, m);
  }

  lemma {:induction false} KeptHeaders(headers: seq<Header>, h: Header)
    ensures h in KeepHeaders(headers) <==> h in headers && !IsBodyHeader(LowerStr(h.name))
  {
    hide LowerStr, IsBodyHeader;
    if headers == [] {
    } else {
      var init := headers[..|headers| - 1];
      KeptHeaders(init, h);
      assert headers == init + [headers[|headers| - 1]];
    }
  }

  /** A rewritten request goes out without a body and without any header that describes one. */
  lemma RewrittenSendsNoBody(first: Req, r: Req, path: string, host: string)
    requires Rewritten(first, r)
    ensures var q := Request(r.verb, path, host, Given(r), r.body);
      q.verb == "GET" && q.body.None? &&
      forall h :: h in AllHeaders(q) ==> LowerStr(h.name) !in ["content-length", "content-type", "transfer-encoding"]
  {
    assert LowerStr("Host") == "host";
    forall h | h in Given(r) ensures !IsBodyHeader(LowerStr(h.name)) {
      KeptHeaders(Given(first), h);
    }
  }

  lemma BodyHeaders(name: string)
    ensures IsBodyHeader(name) <==> name in ["content-length", "content-type", "transfer-encoding"]
  {
  }

  /** Dropping the body headers keeps every other one, in order and as often as it was there. */
  lemma {:induction false} KeepHeadersSplits(a: seq<Header>, h: Header, b: seq<Header>)
    ensures var dropped := LowerStr(h.name) in ["content-length", "content-type", "transfer-encoding"];
      KeepHeaders(a + [h] + b) == KeepHeaders(a) + (if dropped then [] else [h]) + KeepHeaders(b)
    decreases |b|
  {
    BodyHeaders(LowerStr(h.name));
    hide LowerStr, IsBodyHeader;
    var all := a + [h] + b;
    if b == [] {
      assert all[..|all| - 1] == a && all[|all| - 1] == h;
      assert KeepHeaders(b) == [];
    } else {
      var b', last := b[..|b| - 1], b[|b| - 1];
      assert all[..|all| - 1] == a + [h] + b' && all[|all| - 1] == last;
      KeepHeadersSplits(a, h, b');
      assert KeepHeaders(b) == KeepHeaders(b') + (if IsBodyHeader(LowerStr(last.name)) then [] else [last]);
    }
  }

  /** Where the answer to the `k`th request of a run sends it next. */
  function NextAt(
    trace: seq<Req>, seen: nat, k: nat, server: (nat, Req) -> Reply, join: (string, string) -> string)
    : Option<(string, string)>
    requires k < |trace|
  {
    NextRedirect(trace[k].verb, trace[k].url, server(seen + k, trace[k]), join)
  }

  /**
   * A run is a chain: it starts with the request made, and each later request is where the answer to the one before
   * redirects to, relative to that one's URL.
   */
  lemma {:induction false} RunIsChain(
    r: Req, seen: nat, follow: bool, max: int, server: (nat, Req) -> Reply, join: (string, string) -> string, k: nat)
    requires k < |Follow(r, seen, follow, max, server, join).trace|
    ensures var trace := Follow(r, seen, follow, max, server, join).trace;
      if k == 0 then trace[k] == r
      else
        var next, reply := NextAt(trace, seen, k - 1, server, join), server(seen + k - 1, trace[k - 1]);
        && follow && next.Some? && reply.Answered? && IsRedirect(reply.code) && reply.location.Some?
        && trace[k].url == join(trace[k - 1].url, reply.location.value)
        && trace[k] == Redirected(trace[k - 1], next.value)
    decreases k
  {
    hide NextVerb, Upper;
    var reply := server(seen, r);
    var next := if follow then NextRedirect(r.verb, r.url, reply, join) else None;
    if k == 0 {
    } else {
      assert !reply.Raised? && next.Some? && seen < max;
      var r' := Redirected(r, next.value);
      var tail := Follow(r', seen + 1, follow, max, server, join).trace;
      assert Follow(r, seen, follow, max, server, join).trace == [r] + tail;
      RunIsChain(r', seen + 1, follow, max, server, join, k - 1);
      if k == 1 {
        assert tail[0] == r';
      } else {
        assert ([r] + tail)[k - 1] == tail[k - 2];
      }
    }
  }

  /** The same letters, in either case. */
  predicate SameLetters(v: string, w: string) {
    && |v| == |w|
    && forall i :: 0 <= i < |v| ==>
         || v[i] == w[i]
         || ('a' <= v[i] <= 'z' && w[i] as int == v[i] as int - 32)
         || ('a' <= w[i] <= 'z' && v[i] as int == w[i] as int - 32)
  }

  /** The method sent is the caller's in capitals. */
  lemma UpperExactly(v: string, w: string)
    ensures w == Upper(v) <==> SameLetters(v, w) && IsUpper(w)
  {
    if SameLetters(v, w) && IsUpper(w) {
      assert forall i :: 0 <= i < |v| ==> w[i] == Upper(v)[i];
    }
  }

  /** Whatever the case of the method asked for, the requests that follow redirects have theirs in capitals. */
  lemma LaterVerbsUpper(
    r: Req, seen: nat, follow: bool, max: int, server: (nat, Req) -> Reply, join: (string, string) -> string, k: nat)
    requires 0 < k < |Follow(r, seen, follow, max, server, join).trace|
    ensures IsUpper(Follow(r, seen, follow, max, server, join).trace[k].verb)
  {
    hide Follow;
    var trace := Follow(r, seen, follow, max, server, join).trace;
    RunIsChain(r, seen, follow, max, server, join, k);
    UpperExactly(trace[k - 1].verb, Upper(trace[k - 1].verb));
  }

  /** The answers that redirect: section 15.4 of RFC 9110, with a Location to go to. */
  predicate Leads(reply: Reply) {
    && reply.Answered? && reply.code in {301, 302, 303, 307, 308}
    && reply.location.Some? && reply.location.value != ""
  }

  /**
   * Which answers are followed, and what a run ends with: a request is followed by another exactly when redirects are
   * followed, there is budget left, and its answer leads on; the run returns its last answer as it came, unless that
   * one leads on too, or `_perform` raised.
   */
  lemma {:induction false} FollowedExactly(
    r: Req, seen: nat, follow: bool, max: int, server: (nat, Req) -> Reply, join: (string, string) -> string, k: nat)
    requires k < |Follow(r, seen, follow, max, server, join).trace|
    ensures var run := Follow(r, seen, follow, max, server, join);
      var reply := server(seen + k, run.trace[k]);
      && (k + 1 < |run.trace| <==> follow && seen + k < max && Leads(reply))
      && (k + 1 == |run.trace| ==>
            run.outcome == if reply.Raised? then PerformRaised
                           else if follow && Leads(reply) then TooManyRedirects
                           else Returned(reply))
    decreases k
  {
    hide Redirected, NextVerb, Upper;
    var reply := server(seen, r);
    var next := if follow then NextRedirect(r.verb, r.url, reply, join) else None;
    var run := Follow(r, seen, follow, max, server, join);
    if !reply.Raised? && next.Some? && seen < max {
      var r' := Redirected(r, next.value);
      var rest := Follow(r', seen + 1, follow, max, server, join);
      assert run == Run([r] + rest.trace, rest.outcome);
      NotEmpty(r', seen + 1, follow, max, server, join);
      if k == 0 {
        assert run.trace[0] == r;
      } else {
        FollowedExactly(r', seen + 1, follow, max, server, join, k - 1);
        assert run.trace[k] == rest.trace[k - 1] && seen + 1 + (k - 1) == seen + k;
      }
    } else {
      assert run.trace == [r];
    }
  }

  lemma NotEmpty(
    r: Req, seen: nat, follow: bool, max: int, server: (nat, Req) -> Reply, join: (string, string) -> string)
    ensures Follow(r, seen, follow, max, server, join).trace != []
  {
  }

  /** The answers that rewrite a request: 303 unless it is a HEAD, 301 and 302 if it is a POST. */
  predicate Rewrites(verb: string, reply: Reply) {
    && reply.Answered? && reply.location.Some? && reply.location.value != ""
    && verb != "GET"
    && ((reply.code == 303 && verb != "HEAD") || ((reply.code == 301 || reply.code == 302) && verb == "POST"))
  }

  lemma StepRewrites(r: Req, reply: Reply, join: (string, string) -> string)
    requires IsUpper(r.verb) && NextRedirect(r.verb, r.url, reply, join).Some?
    ensures NextRedirect(r.verb, r.url, reply, join).value.0 != r.verb <==> Rewrites(r.verb, reply)
  {
    UpperTwice(r.verb);
  }

  /** Some answer within the budget rewrites the request while it is still the original. */
  ghost predicate RewriteMet(trace: seq<Req>, seen: nat, server: (nat, Req) -> Reply) {
    exists k: nat :: k + 1 < |trace| && Rewrites(trace[k].verb, server(seen + k, trace[k]))
  }

  /**
   * Exactly when a run keeps the caller's method, body and headers to its end: none of the answers it follows is a
   * 303 to something other than GET and HEAD, or a 301 or 302 to a POST.
   */
  lemma {:induction false} NeverRewritten(
    r: Req, seen: nat, follow: bool, max: int, server: (nat, Req) -> Reply, join: (string, string) -> string)
    requires IsUpper(r.verb)
    ensures var trace := Follow(r, seen, follow, max, server, join).trace;
      (forall k :: 0 <= k < |trace| ==> Original(r, trace[k])) <==> !RewriteMet(trace, seen, server)
    decreases Budget(seen, max)
  {
    hide Rewrites;
    var trace := Follow(r, seen, follow, max, server, join).trace;
    var reply := server(seen, r);
    var next := if follow then NextRedirect(r.verb, r.url, reply, join) else None;
    if !reply.Raised? && next.Some? && seen < max {
      var r' := Redirected(r, next.value);
      var tail := Follow(r', seen + 1, follow, max, server, join).trace;
      assert trace == [r] + tail;
      RunIsChain(r', seen + 1, follow, max, server, join, 0);
      StepRewrites(r, reply, join);
      if next.value.0 == r.verb {
        NeverRewritten(r', seen + 1, follow, max, server, join);
        MetLater(r, tail, seen, server);
      } else {
        assert Rewrites(trace[0].verb, server(seen + 0, trace[0]));
        assert !Original(r, trace[1]);
      }
    } else {
      assert trace == [r];
    }
  }

  lemma MetLater(r: Req, tail: seq<Req>, seen: nat, server: (nat, Req) -> Reply)
    requires tail != [] && !Rewrites(r.verb, server(seen, r))
    ensures RewriteMet([r] + tail, seen, server) <==> RewriteMet(tail, seen + 1, server)
    ensures (forall k :: 0 <= k < |[r] + tail| ==> Original(r, ([r] + tail)[k]))
       <==> (forall k :: 0 <= k < |tail| ==> Original(r, tail[k]))
  {
    hide Rewrites;
    var trace := [r] + tail;
    if RewriteMet(trace, seen, server) {
      var k: nat :| k + 1 < |trace| && Rewrites(trace[k].verb, server(seen + k, trace[k]));
      assert k > 0 && tail[k - 1] == trace[k];
      assert seen + k == seen + 1 + (k - 1);
    }
    if RewriteMet(tail, seen + 1, server) {
      var k: nat :| k + 1 < |tail| && Rewrites(tail[k].verb, server(seen + 1 + k, tail[k]));
      assert trace[k + 1] == tail[k] && seen + 1 + k == seen + (k + 1);
      assert Rewrites(trace[k + 1].verb, server(seen + (k + 1), trace[k + 1]));
    }
    forall k | 0 <= k < |tail| ensures tail[k] == trace[k + 1] {
    }
  }
}
