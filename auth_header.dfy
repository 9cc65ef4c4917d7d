/** Reading the caller's identity from the `Authorization` request header (src/auth.ts).
    The token verifier (signature and expiry check) is a parameter: it yields the decoded
    claims, or None where the library would throw. */
module AuthHeader {
  import opened Wrappers
  import opened JsString
  import opened Models

  /** The three ways reading the header can fail, with the messages they carry. */
  datatype AuthError = HeaderRequired | MalformedBearer | InvalidToken {
    function Message(): string {
      match this
      case HeaderRequired => "Authorization header required"
      case MalformedBearer => "Authentication token must be 'Bearer [token]"
      case InvalidToken => "Invalid/Expired Token"
    }
  }

  const BEARER := "Bearer "

  /** `header.split("Bearer ")[1]`, with None for the missing second piece. */
  function BearerToken(header: string): Option<string> {
    var parts := Split(header, BEARER);
    if |parts| > 1 then Some(parts[1]) else None
  }

  /** Where a token that starts at `start` stops: at the next "Bearer ", or at the end. */
  function TokenEnd(h: string, start: nat): (e: nat)
    requires start <= |h|
    ensures start <= e <= |h|
  {
    match IndexOf(h, BEARER, start)
    case Some(j) => j
    case None => |h|
  }

  /** The second piece of the split is the first piece of what follows the first "Bearer ". */
  lemma BearerTokenIsFirstPieceAfterBearer(h: string)
    ensures IndexOf(h, BEARER, 0).None? ==> BearerToken(h).None?
    ensures IndexOf(h, BEARER, 0).Some? ==>
              BearerToken(h) == Some(Split(h[IndexOf(h, BEARER, 0).value + |BEARER|..], BEARER)[0])
  {
    SplitUnfolds(h, BEARER);
    if IndexOf(h, BEARER, 0).Some? {
      var rest := h[IndexOf(h, BEARER, 0).value + |BEARER|..];
      assert Split(rest, BEARER) != [];
    }
  }

  /** What follows a position, cut at its own first "Bearer ", is the text up to TokenEnd. */
  lemma {:induction false} PieceAfterIsUpToTokenEnd(h: string, start: nat)
    requires start <= |h|
    ensures Split(h[start..], BEARER)[0] == h[start..TokenEnd(h, start)]
  {
    var rest := h[start..];
    SplitFirstPiece(rest, BEARER);
    IndexOfInSuffix(h, BEARER, start, 0);
    match IndexOf(rest, BEARER, 0)
    case None =>
      assert rest == h[start..TokenEnd(h, start)];
    case Some(j) =>
      assert rest[..j] == h[start..TokenEnd(h, start)];
  }

  /** The token is the text after the first "Bearer ", up to the next one or the end;
      there is none when the header does not contain "Bearer ". */
  lemma BearerTokenFollowsFirstBearer(h: string)
    ensures BearerToken(h).Some? <==> IndexOf(h, BEARER, 0).Some?
    ensures IndexOf(h, BEARER, 0).Some? ==>
              var start := IndexOf(h, BEARER, 0).value + |BEARER|;
              BearerToken(h) == Some(h[start..TokenEnd(h, start)])
  {
    BearerTokenIsFirstPieceAfterBearer(h);
    if IndexOf(h, BEARER, 0).Some? {
      PieceAfterIsUpToTokenEnd(h, IndexOf(h, BEARER, 0).value + |BEARER|);
    }
  }

  /** getUserInfo: the claims of the bearer token, or which of the three errors applies.
      `authorization` is None when the request has no such header. */
  function GetUserInfo(authorization: Option<string>, verify: string -> Option<UserInfo>): (r: Result<UserInfo, AuthError>)
    ensures authorization.GetOr("") == "" ==> r == Failure(HeaderRequired)
    ensures var h := authorization.GetOr("");
            h != "" ==>
              match IndexOf(h, BEARER, 0)
              case None => r == Failure(MalformedBearer)
              case Some(i) =>
                var token := h[i + |BEARER|..TokenEnd(h, i + |BEARER|)];
                r == if token == "" then Failure(MalformedBearer)
                     else if verify(token).None? then Failure(InvalidToken)
                     else Success(verify(token).value)
  {
    var tokenBearer := authorization.GetOr("");
    if tokenBearer != "" then
      BearerTokenFollowsFirstBearer(tokenBearer);
      var token := BearerToken(tokenBearer);
      if token.Some? && token.value != "" then
        match verify(token.value)
        case Some(info) => Success(info)
        case None => Failure(InvalidToken)
      else
        Failure(MalformedBearer)
    else
      Failure(HeaderRequired)
  }

  /** Text before "Bearer " is ignored: no prefix is required. */
  lemma PrefixBeforeBearerIsIgnored(verify: string -> Option<UserInfo>)
    ensures GetUserInfo(Some("xBearer t"), verify) ==
            if verify("t").Some? then Success(verify("t").value) else Failure(InvalidToken)
  {
    var h := "xBearer t";
    BearerTokenFollowsFirstBearer(h);
    assert h[0..7][0] != BEARER[0];
    assert OccursAt(h, BEARER, 1);
    assert IndexOf(h, BEARER, 0) == Some(1);
    assert IndexOf(h, BEARER, 8) == None;
  }

  /** In "Bearer a Bearer b" the first "Bearer " is at 0 and the next one after it at 9. */
  lemma OccurrencesInTwoBearers()
    ensures IndexOf("Bearer a Bearer b", BEARER, 0) == Some(0)
    ensures IndexOf("Bearer a Bearer b", BEARER, 7) == Some(9)
  {
    var h := "Bearer a Bearer b";
    assert OccursAt(h, BEARER, 0) by {
      assert h[0..7] == BEARER;
    }
    assert !OccursAt(h, BEARER, 7) by {
      assert h[7..14][0] == 'a';
    }
    assert !OccursAt(h, BEARER, 8) by {
      assert h[8..15][0] == ' ';
    }
    assert OccursAt(h, BEARER, 9) by {
      assert h[9..16] == BEARER;
    }
    assert IndexOf(h, BEARER, 9) == Some(9);
    assert IndexOf(h, BEARER, 8) == Some(9);
  }

  /** A second "Bearer " ends the token. */
  lemma SecondBearerEndsTheToken(verify: string -> Option<UserInfo>)
    ensures GetUserInfo(Some("Bearer a Bearer b"), verify) ==
            if verify("a ").Some? then Success(verify("a ").value) else Failure(InvalidToken)
  {
    var h := "Bearer a Bearer b";
    OccurrencesInTwoBearers();
    assert TokenEnd(h, 7) == 9;
    assert h[7..9] == "a ";
  }

  /** "Bearer " with nothing after it is malformed. */
  lemma EmptyTokenIsMalformed(verify: string -> Option<UserInfo>)
    ensures GetUserInfo(Some("Bearer "), verify) == Failure(MalformedBearer)
  {
    assert IndexOf("Bearer ", BEARER, 0) == Some(0);
  }
}
