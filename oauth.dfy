/** The token verifier of src/oauth.rs: the access token record, its scope
    list, and how the introspection endpoint's status becomes a result.
    The HTTP round trip, the JSON decoding of the body and the `http`
    crate's table of canonical reason phrases are parameters. */
module OAuth {
  import opened Common
  import opened Http

  // ---------------------------------------------------------------------
  // `split_ascii_whitespace`.

  /** `u8::is_ascii_whitespace`: space, tab, line feed, form feed and
      carriage return (not the vertical tab). */
  predicate IsAsciiWhitespace(c: char) {
    c == ' ' || c == '\t' || c == '\n' || c == '\U{000C}' || c == '\r'
  }

  predicate AllWhitespace(s: string) {
    forall i :: 0 <= i < |s| ==> IsAsciiWhitespace(s[i])
  }

  /** A scope token: non-empty, without ASCII whitespace. */
  predicate IsToken(t: string) {
    |t| > 0 && forall i :: 0 <= i < |t| ==> !IsAsciiWhitespace(t[i])
  }

  /** What is left after the leading whitespace. */
  function SkipWhitespace(s: string): (rest: string)
    ensures |rest| <= |s|
    ensures rest == [] || !IsAsciiWhitespace(rest[0])
  {
    if s != [] && IsAsciiWhitespace(s[0]) then SkipWhitespace(s[1..]) else s
  }

  /** The longest prefix without whitespace. */
  function Word(s: string): (w: string)
    ensures |w| <= |s|
    ensures s != [] && !IsAsciiWhitespace(s[0]) ==> |w| > 0
  {
    if s == [] || IsAsciiWhitespace(s[0]) then [] else [s[0]] + Word(s[1..])
  }

  /** `SkipWhitespace` drops a whitespace-only prefix. */
  lemma {:induction false} SkipWhitespaceSplits(s: string)
    ensures var rest := SkipWhitespace(s);
      s[|s| - |rest|..] == rest && AllWhitespace(s[..|s| - |rest|])
    decreases |s|
  {
    if s != [] && IsAsciiWhitespace(s[0]) {
      SkipWhitespaceSplits(s[1..]);
      var rest := SkipWhitespace(s);
      assert s[1..][|s| - 1 - |rest|..] == s[|s| - |rest|..];
      assert s[..|s| - |rest|] == [s[0]] + s[1..][..|s| - 1 - |rest|];
    }
  }

  /** `Word` takes a whitespace-free prefix that stops at whitespace or at
      the end. */
  lemma {:induction false} WordSplits(s: string)
    ensures var w := Word(s);
      s[..|w|] == w && (forall i :: 0 <= i < |w| ==> !IsAsciiWhitespace(w[i]))
      && (|w| == |s| || IsAsciiWhitespace(s[|w|]))
    decreases |s|
  {
    if !(s == [] || IsAsciiWhitespace(s[0])) {
      WordSplits(s[1..]);
      var w := Word(s);
      assert w == [s[0]] + Word(s[1..]);
      assert s[..|w|] == [s[0]] + s[1..][..|w| - 1];
    }
  }

  /** `str::split_ascii_whitespace`, collected. */
  function SplitAsciiWhitespace(s: string): (tokens: seq<string>)
    ensures forall i :: 0 <= i < |tokens| ==> IsToken(tokens[i])
    decreases |s|
  {
    var rest := SkipWhitespace(s);
    if rest == [] then []
    else
      var w := Word(rest);
      var more := SplitAsciiWhitespace(rest[|w|..]);
      WordSplits(rest);
      assert forall i :: 0 < i <= |more| ==> ([w] + more)[i] == more[i - 1];
      [w] + more
  }

  function JoinWithSpaces(tokens: seq<string>): string {
    if tokens == [] then ""
    else if |tokens| == 1 then tokens[0]
    else tokens[0] + " " + JoinWithSpaces(tokens[1..])
  }

  /** `gaps[0] + tokens[0] + gaps[1] + ... + tokens[n-1] + gaps[n]`. */
  function Interleave(gaps: seq<string>, tokens: seq<string>): string
    requires |gaps| == |tokens| + 1
  {
    if tokens == [] then gaps[0]
    else gaps[0] + tokens[0] + Interleave(gaps[1..], tokens[1..])
  }

  lemma {:induction false} SkipLeadingWhitespace(ws: string, s: string)
    requires AllWhitespace(ws)
    requires s == [] || !IsAsciiWhitespace(s[0])
    ensures SkipWhitespace(ws + s) == s
    decreases |ws|
  {
    if ws != [] {
      assert (ws + s)[1..] == ws[1..] + s;
      SkipLeadingWhitespace(ws[1..], s);
    } else {
      assert ws + s == s;
    }
  }

  lemma {:induction false} WordOfToken(t: string, s: string)
    requires forall i :: 0 <= i < |t| ==> !IsAsciiWhitespace(t[i])
    requires s == [] || IsAsciiWhitespace(s[0])
    ensures Word(t + s) == t
    decreases |t|
  {
    if t != [] {
      assert (t + s)[1..] == t[1..] + s;
      WordOfToken(t[1..], s);
    } else {
      assert t + s == s;
    }
  }

  /** Whitespace in front of a string does not change its tokens. */
  lemma {:induction false} SplitSkipsWhitespace(ws: string, s: string)
    requires AllWhitespace(ws)
    ensures SplitAsciiWhitespace(ws + s) == SplitAsciiWhitespace(s)
    decreases |ws|
  {
    if ws != [] {
      assert (ws + s)[1..] == ws[1..] + s;
      SplitSkipsWhitespace(ws[1..], s);
      assert SkipWhitespace(ws + s) == SkipWhitespace(ws[1..] + s);
    } else {
      assert ws + s == s;
    }
  }

  /** A token followed by whitespace or nothing is split off whole. */
  lemma SplitToken(t: string, tail: string)
    requires IsToken(t)
    requires tail == [] || IsAsciiWhitespace(tail[0])
    ensures SplitAsciiWhitespace(t + tail) == [t] + SplitAsciiWhitespace(tail)
  {
    var s := t + tail;
    assert s[0] == t[0];
    assert SkipWhitespace(s) == s;
    WordOfToken(t, tail);
    assert s[|t|..] == tail;
  }

  /** Splitting scopes joined by single spaces gives back the same list. */
  lemma {:induction false} SplitJoin(tokens: seq<string>)
    requires forall i :: 0 <= i < |tokens| ==> IsToken(tokens[i])
    ensures SplitAsciiWhitespace(JoinWithSpaces(tokens)) == tokens
    decreases |tokens|
  {
    if tokens == [] {
    } else if |tokens| == 1 {
      var t := tokens[0];
      SplitToken(t, "");
      assert t + "" == t;
      assert SplitAsciiWhitespace("") == [];
    } else {
      var t := tokens[0];
      var rest := JoinWithSpaces(tokens[1..]);
      assert JoinWithSpaces(tokens) == t + (" " + rest);
      SplitToken(t, " " + rest);
      assert AllWhitespace(" ");
      SplitSkipsWhitespace(" ", rest);
      SplitJoin(tokens[1..]);
    }
  }

  /** Splitting is idempotent under re-joining: normalising the spacing of
      a scope string does not change its scopes. */
  lemma SplitJoinSplit(s: string)
    ensures SplitAsciiWhitespace(JoinWithSpaces(SplitAsciiWhitespace(s))) == SplitAsciiWhitespace(s)
  {
    SplitJoin(SplitAsciiWhitespace(s));
  }

  /** The tokens are the maximal runs of non-whitespace characters, in
      order: the input is the tokens separated by whitespace-only gaps,
      and every gap between two tokens is non-empty. */
  lemma {:induction false} SplitIsMaximalRuns(s: string) returns (gaps: seq<string>)
    ensures |gaps| == |SplitAsciiWhitespace(s)| + 1
    ensures forall i :: 0 <= i < |gaps| ==> AllWhitespace(gaps[i])
    ensures forall i :: 0 < i < |gaps| - 1 ==> |gaps[i]| > 0
    ensures s == Interleave(gaps, SplitAsciiWhitespace(s))
    ensures |s| > 0 && IsAsciiWhitespace(s[0]) ==> |gaps[0]| > 0
    decreases |s|
  {
    if SkipWhitespace(s) == [] {
      SplitOfWhitespace(s);
      gaps := [s];
    } else {
      var lead, w, tail := SplitFirst(s);
      var more := SplitIsMaximalRuns(tail);
      var ts := SplitAsciiWhitespace(tail);
      gaps := [lead] + more;
      assert Interleave(gaps, [w] + ts) == lead + w + Interleave(more, ts) by {
        assert gaps[1..] == more && ([w] + ts)[1..] == ts;
      }
      assert forall i :: 0 < i < |gaps| ==> gaps[i] == more[i - 1];
    }
  }

  /** A string with nothing but whitespace has no tokens. */
  lemma SplitOfWhitespace(s: string)
    requires SkipWhitespace(s) == []
    ensures AllWhitespace(s) && SplitAsciiWhitespace(s) == []
  {
    SkipWhitespaceSplits(s);
    assert s[..|s|] == s;
  }

  /** One step of the split: leading whitespace, the first token, and the
      rest, which is empty or starts with whitespace. */
  lemma SplitFirst(s: string) returns (lead: string, w: string, tail: string)
    requires SkipWhitespace(s) != []
    ensures s == lead + w + tail && |tail| < |s|
    ensures AllWhitespace(lead) && IsToken(w)
    ensures tail == [] || IsAsciiWhitespace(tail[0])
    ensures SplitAsciiWhitespace(s) == [w] + SplitAsciiWhitespace(tail)
    ensures |s| > 0 && IsAsciiWhitespace(s[0]) ==> |lead| > 0
  {
    var rest := SkipWhitespace(s);
    lead := s[..|s| - |rest|];
    SkipWhitespaceSplits(s);
    assert s == lead + rest;
    w := Word(rest);
    tail := rest[|w|..];
    WordSplits(rest);
    assert rest == w + tail;
  }

  // ---------------------------------------------------------------------
  // The access token.

  /** The introspected access token. */
  datatype AccessToken = AccessToken(me: string, clientId: string, scope: string) {
    /** `me()`: the stored profile URL. */
    function Me(): string {
      me
    }

    /** `client_id()`: the stored client identifier. */
    function ClientId(): string {
      clientId
    }

    /** `scopes()`: the space-separated scope list. */
    function Scopes(): (tokens: seq<string>)
      ensures forall i :: 0 <= i < |tokens| ==> IsToken(tokens[i])
    {
      SplitAsciiWhitespace(scope)
    }
  }

  // ---------------------------------------------------------------------
  // The status mapping of `VerificationService::validate`.

  datatype VerificationError = Unauthenticated | InternalError(reason: string)

  /** The `Display` of a verification error: the reason phrase is kept in
      the value but not shown. */
  function Display(e: VerificationError): (s: string)
    ensures s == "Unauthenticated" <==> e.Unauthenticated?
    ensures e.InternalError? ==> s == "AuthServer Error"
  {
    match e
    case Unauthenticated => "Unauthenticated"
    case InternalError(_) => "AuthServer Error"
  }

  /** Why `validate` failed: the status check, the request itself, or the
      JSON body. */
  datatype ValidateError =
    | Verification(cause: VerificationError)
    | Transport(reason: string)
    | Decode(reason: string)

  /** The introspection endpoint's reply: its status and what decoding its
      body as an `AccessToken` gives. */
  datatype IntrospectionReply = IntrospectionReply(status: nat, json: Result<AccessToken, string>)

  const UNKNOWN_ERROR: string := "Unknown Error"

  /** `validate`, given the outcome of sending the request and the
      canonical reason phrase of each status. */
  function Validate(sent: Result<IntrospectionReply, string>, canonicalReason: nat -> Option<string>)
    : (r: Result<AccessToken, ValidateError>)
    ensures r.Ok? <==> sent.Ok? && IsSuccess(sent.value.status) && sent.value.json.Ok?
    ensures r.Ok? ==> r.value == sent.value.json.value
    ensures r == Err(Verification(Unauthenticated)) <==> sent.Ok? && sent.value.status == 401
    ensures r.Err? && r.error.Verification? && r.error.cause.InternalError?
      <==> sent.Ok? && !IsSuccess(sent.value.status) && sent.value.status != 401
    ensures r.Err? && r.error.Verification? && r.error.cause.InternalError? ==>
      r.error.cause.reason == (match canonicalReason(sent.value.status)
                               case Some(phrase) => phrase
                               case None => UNKNOWN_ERROR)
  {
    match sent
    case Err(e) => Err(Transport(e))
    case Ok(reply) =>
      if IsSuccess(reply.status) then
        match reply.json
        case Ok(token) => Ok(token)
        case Err(e) => Err(Decode(e))
      else if reply.status == 401 then
        Err(Verification(Unauthenticated))
      else
        var phrase := match canonicalReason(reply.status)
          case Some(p) => p
          case None => UNKNOWN_ERROR;
        Err(Verification(InternalError(phrase)))
  }

  /** A 401 from the endpoint is reported as "Unauthenticated". */
  lemma UnauthorizedDisplays(json: Result<AccessToken, string>, canonicalReason: nat -> Option<string>)
    ensures var r := Validate(Ok(IntrospectionReply(401, json)), canonicalReason);
      r.Err? && r.error.Verification? && Display(r.error.cause) == "Unauthenticated"
  {
  }
}
