/** `WebsocketMultiTokenAuthentication` and `get_websocket_authorization_query`: a bearer
    token read from the handshake's query string and checked against the token table.
    backends.py carries a verbatim copy of both; this module models that copy too.

    The work after the query has been read is `AuthenticateCredentialBytes`, the same
    algorithm the synchronous header path applies to the `Authorization` header. */
module Authentication {
  import opened Base
  import opened Models
  import opened Store
  import opened ByteStrings
  import Utf8
  import QueryString

  /** `scope['query_string']`: bytes as the ASGI server delivers it, or text as some
      test clients put it. */
  datatype QueryStringValue = RawQuery(bytes: seq<byte>) | TextQuery(text: string)

  /** The parts of a connection scope the core reads and writes; every other key is
      copied along unchanged and not modelled. */
  datatype Scope = Scope(queryString: QueryStringValue, user: Option<Principal>)

  /** The query parameter `b'Authorization'`. */
  const AuthorizationName: seq<byte> := [65, 117, 116, 104, 111, 114, 105, 122, 97, 116, 105, 111, 110]

  const Keyword := "Token"

  /** `self.keyword.lower().encode()`. */
  const KeywordBytes: seq<byte> := Utf8.Encode(LowerAscii(Keyword))

  const HeaderPrefix := "Invalid token header. "

  /** The reasons of the `AuthenticationFailed` exceptions raised. */
  datatype AuthFailure = NoCredentialsProvided | ContainsSpaces | InvalidCharacters | InvalidToken | UserInactive

  /** The text `AuthenticationFailed` carries for each reason. The three header failures
      share the prefix `Invalid token header. `; the lookup failures do not. */
  function Message(f: AuthFailure): (m: string)
    ensures StartsWith(m, HeaderPrefix) <==> f in {NoCredentialsProvided, ContainsSpaces, InvalidCharacters}
  {
    match f
    case NoCredentialsProvided => HeaderPrefix + "No credentials provided."
    case ContainsSpaces => HeaderPrefix + "Token string should not contain spaces."
    case InvalidCharacters => HeaderPrefix + "Token string should not contain invalid characters."
    case InvalidToken => assert |"Invalid token."| < |HeaderPrefix|; "Invalid token."
    case UserInactive => assert "User inactive or deleted."[0] != HeaderPrefix[0]; "User inactive or deleted."
  }

  /** Each reason has its own text, so a client can tell them apart. */
  lemma MessagesDistinct(f: AuthFailure, g: AuthFailure)
    requires f != g
    ensures Message(f) != Message(g)
  {
    var mf, mg := Message(f), Message(g);
    if StartsWith(mf, HeaderPrefix) && StartsWith(mg, HeaderPrefix) {
      assert mf[|HeaderPrefix|] != mg[|HeaderPrefix|] || |mf| != |mg|;
    } else if !StartsWith(mf, HeaderPrefix) && !StartsWith(mg, HeaderPrefix) {
      assert |mf| != |mg|;
    }
  }

  /** The result of an authenticator: `None`, `(user, token)`, or a raised failure. */
  datatype Outcome = NotAttempted | Authenticated(user: User, token: MultiToken) | Failed(reason: AuthFailure)

  /** `get_websocket_authorization_query`: the first `Authorization` value, else `b''`.
      A text query string parses to text keys, which never equal the bytes key. */
  function WebsocketAuthorizationQuery(scope: Scope): (auth: seq<byte>)
    ensures scope.queryString.TextQuery? ==> auth == []
    ensures auth != [] ==> (AuthorizationName, auth) in QueryString.ParsePairs(scope.queryString.bytes)
    ensures scope.queryString.RawQuery? ==>
              var pairs := QueryString.ParsePairs(scope.queryString.bytes);
              && ((forall i :: 0 <= i < |pairs| ==> pairs[i].0 != AuthorizationName) <==> auth == [])
              && (auth != [] ==> exists i :: 0 <= i < |pairs| && pairs[i] == (AuthorizationName, auth)
                                            && forall j :: 0 <= j < i ==> pairs[j].0 != AuthorizationName)
  {
    match scope.queryString
    case RawQuery(q) => QueryString.FirstValue(QueryString.ParsePairs(q), AuthorizationName)
    case TextQuery(_) => []
  }

  /** `authenticate_credentials`: one read of the token table joined with its user. */
  function AuthenticateCredentials(key: string, users: seq<User>, tokens: map<string, MultiToken>): (r: Outcome)
    ensures r.Authenticated? <==> key in tokens && UserById(users, tokens[key].user).Some? && UserById(users, tokens[key].user).value.isActive
    ensures r.Authenticated? ==> r.token == tokens[key] && r.user in users && r.user.id == r.token.user && r.user.isActive
    ensures r.Authenticated? && TokensKeyed(tokens) ==> r.token.key == key
    ensures r == Failed(InvalidToken) <==> key !in tokens || UserById(users, tokens[key].user).None?
    ensures r == Failed(UserInactive) <==> key in tokens && UserById(users, tokens[key].user).Some? && !UserById(users, tokens[key].user).value.isActive
  {
    if key !in tokens then Failed(InvalidToken)
    else
      var token := tokens[key];
      match UserById(users, token.user)
      case None => Failed(InvalidToken)
      case Some(user) => if !user.isActive then Failed(UserInactive) else Authenticated(user, token)
  }

  /** `authenticate_websocket` once the credential bytes are read: split on white space,
      compare the keyword without regard to case, check the number of words, decode. */
  function AuthenticateCredentialBytes(auth: seq<byte>, users: seq<User>, tokens: map<string, MultiToken>): (r: Outcome)
    ensures r == NotAttempted <==> Words(auth) == [] || Lower(Words(auth)[0]) != KeywordBytes
    ensures r == Failed(NoCredentialsProvided) <==> |Words(auth)| == 1 && Lower(Words(auth)[0]) == KeywordBytes
    ensures r == Failed(ContainsSpaces) <==> |Words(auth)| > 2 && Lower(Words(auth)[0]) == KeywordBytes
    ensures r == Failed(InvalidCharacters) <==> |Words(auth)| == 2 && Lower(Words(auth)[0]) == KeywordBytes && Utf8.Decode(Words(auth)[1]).None?
    ensures r.Authenticated? ==> r.user in users && r.user.isActive && r.user.id == r.token.user && r.token in tokens.Values
    ensures r.Authenticated? ==> Utf8.Encode(r.token.key) == Words(auth)[1] || !TokensKeyed(tokens)
    ensures |Words(auth)| == 2 && Lower(Words(auth)[0]) == KeywordBytes && Utf8.Decode(Words(auth)[1]).Some? ==>
              r == AuthenticateCredentials(Utf8.Decode(Words(auth)[1]).value, users, tokens)
  {
    var words := Words(auth);
    if words == [] || Lower(words[0]) != KeywordBytes then NotAttempted
    else if |words| == 1 then Failed(NoCredentialsProvided)
    else if |words| > 2 then Failed(ContainsSpaces)
    else
      match Utf8.Decode(words[1])
      case None => Failed(InvalidCharacters)
      case Some(key) =>
        (Utf8.EncodeDecode(words[1]); AuthenticateCredentials(key, users, tokens))
  }

  /** `authenticate_websocket(scope)`. A text query string never carries a credential,
      so such a connection is not attempted and stays anonymous. */
  function AuthenticateWebsocket(scope: Scope, users: seq<User>, tokens: map<string, MultiToken>): (r: Outcome)
    ensures scope.queryString.TextQuery? ==> r == NotAttempted
    ensures r == AuthenticateCredentialBytes(WebsocketAuthorizationQuery(scope), users, tokens)
    ensures r.Authenticated? ==> r.user in users && r.user.isActive && r.user.id == r.token.user && r.token in tokens.Values
  {
    AuthenticateCredentialBytes(WebsocketAuthorizationQuery(scope), users, tokens)
  }

  /** Empty or white-space-only credentials are not an attempt, and not an error. */
  lemma BlankCredentialsNotAttempted(auth: seq<byte>, users: seq<User>, tokens: map<string, MultiToken>)
    requires AllSpace(auth)
    ensures AuthenticateCredentialBytes(auth, users, tokens) == NotAttempted
  {
  }

  /** Whenever the header is not attempted or is malformed, the outcome does not depend on
      the tables: no lookup happens. */
  lemma MalformedNeedsNoLookup(auth: seq<byte>, users: seq<User>, tokens: map<string, MultiToken>,
                               users': seq<User>, tokens': map<string, MultiToken>)
    requires AuthenticateCredentialBytes(auth, users, tokens) in
             {NotAttempted, Failed(NoCredentialsProvided), Failed(ContainsSpaces), Failed(InvalidCharacters)}
    ensures AuthenticateCredentialBytes(auth, users', tokens') == AuthenticateCredentialBytes(auth, users, tokens)
  {
  }

  lemma KeywordBytesValue()
    ensures KeywordBytes == [116, 111, 107, 101, 110]
  {
    assert LowerAscii(Keyword) == "token";
    assert "token"[1..] == "oken" && "oken"[1..] == "ken" && "ken"[1..] == "en" && "en"[1..] == "n";
    assert Utf8.Encode("n") == [110] by { assert "n"[1..] == ""; }
    assert Utf8.Encode("en") == [101] + Utf8.Encode("n");
    assert Utf8.Encode("ken") == [107] + Utf8.Encode("en");
    assert Utf8.Encode("oken") == [111] + Utf8.Encode("ken");
    assert Utf8.Encode("token") == [116] + Utf8.Encode("oken");
  }

  /** A key whose encoding contains no white space authenticates exactly as its lookup
      decides, when sent as `<keyword> <key>` with the keyword in any letter case and any
      white space around and between the two. */
  lemma WellFormedCredentials(keyword: seq<byte>, key: string, gaps: seq<seq<byte>>,
                              users: seq<User>, tokens: map<string, MultiToken>)
    requires Lower(keyword) == [116, 111, 107, 101, 110]
    requires IsWord(Utf8.Encode(key))
    requires |gaps| == 3 && AllSpace(gaps[0]) && AllSpace(gaps[1]) && AllSpace(gaps[2]) && gaps[1] != []
    ensures AuthenticateCredentialBytes(JoinGaps([keyword, Utf8.Encode(key)], gaps), users, tokens)
            == AuthenticateCredentials(key, users, tokens)
  {
    KeywordBytesValue();
    var ws := [keyword, Utf8.Encode(key)];
    assert IsWord(keyword) by {
      forall i | 0 <= i < |keyword| ensures !IsSpace(keyword[i]) {
        assert Lower(keyword)[i] == LowerByte(keyword[i]);
      }
    }
    WordsOfJoinGaps(ws, gaps);
    Utf8.DecodeEncode(key);
  }

  /** Letter case of the keyword never changes the outcome, however the words are spaced. */
  lemma KeywordCaseInsensitive(ws: seq<seq<byte>>, ws': seq<seq<byte>>, gaps: seq<seq<byte>>,
                               users: seq<User>, tokens: map<string, MultiToken>)
    requires |ws| == |ws'| >= 1
    requires Separated(ws, gaps) && Separated(ws', gaps)
    requires Lower(ws[0]) == Lower(ws'[0])
    requires ws[1..] == ws'[1..]
    ensures AuthenticateCredentialBytes(JoinGaps(ws, gaps), users, tokens)
            == AuthenticateCredentialBytes(JoinGaps(ws', gaps), users, tokens)
  {
    WordsOfJoinGaps(ws, gaps);
    WordsOfJoinGaps(ws', gaps);
    if |ws| >= 2 {
      assert ws[1] == ws[1..][0] == ws'[1..][0] == ws'[1];
    }
  }

  /** The two transports agree: the query parameter `Authorization=<quoted credential>`
      leads to the same outcome as the same credential bytes in a header. */
  lemma QueryTransportAgreesWithHeader(credential: seq<byte>, user: Option<Principal>, users: seq<User>, tokens: map<string, MultiToken>)
    requires credential != []
    ensures AuthenticateWebsocket(
              Scope(RawQuery(AuthorizationName + [QueryString.EqualsSign] + QueryString.PercentEncode(credential)), user),
              users, tokens)
            == AuthenticateCredentialBytes(credential, users, tokens)
  {
    QueryString.SingleFieldQuery(AuthorizationName, credential);
  }
}
