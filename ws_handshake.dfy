/** The opening handshake of websocket_server.py (WebSocketHandler.handshake,
    make_handshake_response, calculate_response_key): the two regular
    expressions it searches the request with, written out as the matches
    Python's backtracking engine finds, and the 101 response it sends back.
    SHA-1 is a parameter of the model. */
module WsHandshake {
  import opened PyText
  import opened Utf8
  import Base64

  /** The fixed GUID of section 1.3 of RFC 6455. */
  const GUID: string := "258EAFA5-E914-47DA-95CA-C5AB0DC85B11"

  // ---------------------------------------------------------------- \nupgrade[\s]*:[\s]*websocket

  const UPGRADE_NAME: string := "\nupgrade"
  const WEBSOCKET: string := "websocket"

  /** The regular expression's language: the characters s[i..b+9] spell
      "\nupgrade", a run of whitespace, ':', a run of whitespace, "websocket". */
  predicate UpgradeMatch(s: string, i: nat, a: nat, b: nat)
  {
    && i + 8 <= a < b && b + 9 <= |s|
    && s[i..i + 8] == UPGRADE_NAME && AllSpace(s[i + 8..a]) && s[a] == ':'
    && AllSpace(s[a + 1..b]) && s[b..b + 9] == WEBSOCKET
  }

  /** The attempt the engine makes at position i: each whitespace run is taken
      as long as it goes, since neither ':' nor 'w' is whitespace. */
  predicate UpgradeAt(s: string, i: nat)
    requires i <= |s|
  {
    && i + 8 <= |s| && s[i..i + 8] == UPGRADE_NAME
    && var a := SpaceEnd(s, i + 8);
    && a < |s| && s[a] == ':'
    && var b := SpaceEnd(s, a + 1);
    b + 9 <= |s| && s[b..b + 9] == WEBSOCKET
  }

  /** re.search: the first position from i on where the attempt succeeds. */
  function FindUpgradeFrom(s: string, i: nat): (r: Option<nat>)
    requires i <= |s|
    ensures r.Some? ==> i <= r.value < |s| && UpgradeAt(s, r.value)
    ensures r.Some? ==> forall j :: i <= j < r.value ==> !UpgradeAt(s, j)
    ensures r.None? ==> forall j :: i <= j <= |s| ==> !UpgradeAt(s, j)
    decreases |s| - i
  {
    if i == |s| then None
    else if UpgradeAt(s, i) then Some(i)
    else FindUpgradeFrom(s, i + 1)
  }

  /** re.search over the whole text: the leftmost position where the
      attempt succeeds, or None when it succeeds nowhere. */
  function FindUpgrade(s: string): (r: Option<nat>)
    ensures r.Some? ==> r.value < |s| && UpgradeAt(s, r.value)
    ensures r.Some? ==> forall j :: 0 <= j < r.value ==> !UpgradeAt(s, j)
    ensures r.None? ==> forall j :: 0 <= j <= |s| ==> !UpgradeAt(s, j)
  {
    FindUpgradeFrom(s, 0)
  }

  /** A whitespace run that ends at a non-whitespace character is the longest one. */
  lemma RunEnd(s: string, i: nat, a: nat)
    requires i <= a < |s| && AllSpace(s[i..a]) && !IsSpace(s[a])
    ensures SpaceEnd(s, i) == a
    decreases a - i
  {
    if i < a {
      assert IsSpace(s[i..a][0]);
      assert s[i + 1..a] == s[i..a][1..];
      RunEnd(s, i + 1, a);
    }
  }

  /** The attempt at i succeeds exactly when the language has a match starting at i. */
  lemma UpgradeAtIff(s: string, i: nat)
    requires i <= |s|
    ensures UpgradeAt(s, i) <==> exists a: nat, b: nat :: UpgradeMatch(s, i, a, b)
  {
    if UpgradeAt(s, i) {
      var a := SpaceEnd(s, i + 8);
      assert UpgradeMatch(s, i, a, SpaceEnd(s, a + 1));
    }
    if a: nat, b: nat :| UpgradeMatch(s, i, a, b) {
      MatchUpgradeAt(s, i, a, b);
    }
  }

  lemma MatchUpgradeAt(s: string, i: nat, a: nat, b: nat)
    requires UpgradeMatch(s, i, a, b)
    ensures UpgradeAt(s, i)
  {
    assert s[b] == WEBSOCKET[0];
    RunEnd(s, i + 8, a);
    RunEnd(s, a + 1, b);
  }

  /** What the search finds is a match of the regular expression. */
  lemma FindUpgradeSound(s: string)
    requires FindUpgrade(s).Some?
    ensures exists a: nat, b: nat :: UpgradeMatch(s, FindUpgrade(s).value, a, b)
  {
    UpgradeAtIff(s, FindUpgrade(s).value);
  }

  /** Any match of the regular expression is found, and no match lies before
      the one found. */
  lemma {:induction false} FindUpgradeFromComplete(s: string, from: nat, i: nat, a: nat, b: nat)
    requires from <= i && UpgradeMatch(s, i, a, b)
    ensures FindUpgradeFrom(s, from).Some? && FindUpgradeFrom(s, from).value <= i
    decreases i - from
  {
    if from < i && !UpgradeAt(s, from) {
      FindUpgradeFromComplete(s, from + 1, i, a, b);
    } else if from == i {
      UpgradeAtIff(s, i);
    }
  }

  lemma FindUpgradeComplete(s: string, i: nat, a: nat, b: nat)
    requires UpgradeMatch(s, i, a, b)
    ensures FindUpgrade(s).Some? && FindUpgrade(s).value <= i
  {
    FindUpgradeFromComplete(s, 0, i, a, b);
  }

  // ---------------------------------------------------------------- \n[sS]ec-[wW]eb[sS]ocket-[kK]ey[\s]*:[\s]*(.*)\r\n

  /** The header name in lower case; the regular expression also accepts an
      upper-case letter at positions 1, 5, 8 and 15. */
  const KEY_NAME: string := "\nsec-websocket-key"

  predicate NameChar(k: nat, c: char)
    requires k < |KEY_NAME|
  {
    c == KEY_NAME[k] || ((k == 1 || k == 5 || k == 8 || k == 15) && c as int == KEY_NAME[k] as int - 32)
  }

  predicate IsKeyName(t: string)
  {
    |t| == 18 && forall k :: 0 <= k < 18 ==> NameChar(k, t[k])
  }

  predicate NameAt(s: string, i: nat)
  {
    i + 18 <= |s| && IsKeyName(s[i..i + 18])
  }

  /** The positions of a match: the '\n' it starts at, the ':', the first
      character of the captured group and the '\r' that ends it. */
  datatype KeyMatchAt = KeyMatchAt(start: nat, colon: nat, value: nat, cr: nat)

  /** The regular expression's language: s[i..m+2] is the header name, a run of
      whitespace, ':', a run of whitespace, a group s[j..m] holding no line
      feed ('.' does not match one), and "\r\n". */
  predicate KeyMatch(s: string, i: nat, a: nat, j: nat, m: nat)
  {
    && NameAt(s, i) && i + 18 <= a < j <= m && m + 1 < |s|
    && AllSpace(s[i + 18..a]) && s[a] == ':' && AllSpace(s[a + 1..j])
    && (forall k :: j <= k < m ==> s[k] != '\n') && s[m] == '\r' && s[m + 1] == '\n'
  }

  /** The backtracking over the whitespace run after ':': the group is tried
      from position j down to a + 1, and for each start (.*)\r\n succeeds only
      when the next line feed is preceded by a carriage return. */
  function ValueFrom(s: string, i: nat, a: nat, j: nat): (r: Option<KeyMatchAt>)
    requires a < j <= |s|
    ensures r.Some? ==> r.value.start == i && r.value.colon == a && a < r.value.value <= j
    ensures r.Some? ==> r.value.value <= r.value.cr && r.value.cr + 1 < |s|
    decreases j
  {
    var e := FindFrom(s, '\n', j);
    if e < |s| && e > j && s[e - 1] == '\r' then Some(KeyMatchAt(i, a, j, e - 1))
    else if j == a + 1 then None
    else ValueFrom(s, i, a, j - 1)
  }

  /** The attempt the engine makes at position i. */
  function KeyAt(s: string, i: nat): (r: Option<KeyMatchAt>)
    requires i <= |s|
    ensures r.Some? ==> r.value.start == i
    ensures r.Some? ==> r.value.value <= r.value.cr && r.value.cr + 1 < |s|
  {
    if !NameAt(s, i) then None
    else
      var a := SpaceEnd(s, i + 18);
      if a == |s| || s[a] != ':' then None
      else ValueFrom(s, i, a, SpaceEnd(s, a + 1))
  }

  function FindKeyFrom(s: string, i: nat): (r: Option<KeyMatchAt>)
    requires i <= |s|
    ensures r.Some? ==> i <= r.value.start
    ensures r.Some? ==> r.value.value <= r.value.cr && r.value.cr + 1 < |s|
    decreases |s| - i
  {
    if i == |s| then None
    else
      var r := KeyAt(s, i);
      if r.Some? then r else FindKeyFrom(s, i + 1)
  }

  /** re.search for the key header; the key is group(1), s[value..cr]. */
  function FindKey(s: string): (r: Option<KeyMatchAt>)
    ensures r.Some? ==> r.value.value <= r.value.cr && r.value.cr + 1 < |s|
  {
    FindKeyFrom(s, 0)
  }

  lemma {:induction false} ValueFromSound(s: string, i: nat, a: nat, j: nat)
    requires a < j <= |s| && NameAt(s, i) && i + 18 <= a
    requires AllSpace(s[i + 18..a]) && s[a] == ':' && AllSpace(s[a + 1..j])
    ensures var r := ValueFrom(s, i, a, j);
      r.Some? ==> KeyMatch(s, i, a, r.value.value, r.value.cr)
    decreases j
  {
    var e := FindFrom(s, '\n', j);
    if e < |s| && e > j && s[e - 1] == '\r' {
    } else if j > a + 1 {
      assert s[a + 1..j - 1] == s[a + 1..j][..j - 1 - (a + 1)];
      ValueFromSound(s, i, a, j - 1);
    }
  }

  /** The greedy run: among matches with the same start and ':', the one found
      has the longest whitespace run after ':', and the group then ends at the
      first line feed. */
  lemma {:induction false} ValueFromGreedy(s: string, i: nat, a: nat, j: nat, j': nat, m': nat)
    requires a < j <= |s| && j' <= j && KeyMatch(s, i, a, j', m')
    ensures var r := ValueFrom(s, i, a, j);
      r.Some? && j' <= r.value.value && (j' == r.value.value ==> r.value.cr == m')
    decreases j
  {
    var e := FindFrom(s, '\n', j);
    if j == j' {
      assert e == m' + 1;
    } else if e < |s| && e > j && s[e - 1] == '\r' {
    } else {
      ValueFromGreedy(s, i, a, j - 1, j', m');
    }
  }

  lemma KeyAtSound(s: string, i: nat)
    requires i <= |s| && KeyAt(s, i).Some?
    ensures var r := KeyAt(s, i).value; KeyMatch(s, i, r.colon, r.value, r.cr)
  {
    var a := SpaceEnd(s, i + 18);
    assert NameAt(s, i) && a < |s| && s[a] == ':';
    KeyAtColon(s, i, a);
    ValueFromSound(s, i, a, SpaceEnd(s, a + 1));
  }

  lemma KeyAtGreedy(s: string, i: nat, a': nat, j': nat, m': nat)
    requires KeyMatch(s, i, a', j', m')
    ensures var r := KeyAt(s, i);
      r.Some? && j' <= r.value.value && (j' == r.value.value ==> r.value.cr == m')
  {
    RunEnd(s, i + 18, a');
    KeyAtColon(s, i, a');
    RunBound(s, a' + 1, j');
    ValueFromGreedy(s, i, a', SpaceEnd(s, a' + 1), j', m');
  }

  /** Past the name and the whitespace run after it, a ':' at a leaves the
      match to the value. */
  lemma KeyAtColon(s: string, i: nat, a: nat)
    requires i <= |s| && NameAt(s, i) && a < |s| && SpaceEnd(s, i + 18) == a && s[a] == ':'
    ensures KeyAt(s, i) == ValueFrom(s, i, a, SpaceEnd(s, a + 1))
  {
  }

  /** A whitespace run from i reaches at least as far as any all-whitespace slice from i. */
  lemma RunBound(s: string, i: nat, j: nat)
    requires i <= j <= |s| && AllSpace(s[i..j])
    ensures j <= SpaceEnd(s, i)
  {
  }

  /** What the search finds is a match of the regular expression. */
  lemma {:induction false} FindKeyFromSound(s: string, from: nat)
    requires from <= |s| && FindKeyFrom(s, from).Some?
    ensures var r := FindKeyFrom(s, from).value; KeyMatch(s, r.start, r.colon, r.value, r.cr)
    decreases |s| - from
  {
    if KeyAt(s, from).Some? {
      KeyAtSound(s, from);
    } else {
      FindKeyFromSound(s, from + 1);
    }
  }

  lemma {:induction false} FindKeyFromFirst(s: string, from: nat, i: nat, a: nat, j: nat, m: nat)
    requires from <= i && KeyMatch(s, i, a, j, m)
    ensures var r := FindKeyFrom(s, from);
      r.Some? && r.value.start <= i
      && (r.value.start == i ==> j <= r.value.value && (j == r.value.value ==> r.value.cr == m))
    decreases i - from
  {
    if from == i {
      KeyAtGreedy(s, i, a, j, m);
    } else if KeyAt(s, from).None? {
      FindKeyFromFirst(s, from + 1, i, a, j, m);
    }
  }

  lemma FindKeySound(s: string)
    requires FindKey(s).Some?
    ensures var r := FindKey(s).value; KeyMatch(s, r.start, r.colon, r.value, r.cr)
  {
    FindKeyFromSound(s, 0);
  }

  /** Python's choice among the matches: the leftmost start, then the longest
      whitespace run after ':'; so group(1) is the value the search returns. */
  lemma FindKeyFirst(s: string, i: nat, a: nat, j: nat, m: nat)
    requires KeyMatch(s, i, a, j, m)
    ensures var r := FindKey(s);
      r.Some? && r.value.start <= i
      && (r.value.start == i ==> j <= r.value.value && (j == r.value.value ==> r.value.cr == m))
  {
    FindKeyFromFirst(s, 0, i, a, j, m);
  }

  /** A key header line "Sec-WebSocket-Key: value\r\n" (with any of the
      accepted spellings of the name) that follows a first line is found,
      and the key taken from it is its value. */
  lemma KeyHeaderFound(pre: string, name: string, value: string, rest: string)
    requires forall k :: 0 <= k < |pre| ==> pre[k] != '\n'
    requires IsKeyName(name)
    requires value != [] && !IsSpace(value[0]) && forall k :: 0 <= k < |value| ==> value[k] != '\n'
    ensures var s := pre + name + ": " + value + "\r\n" + rest;
      FindKey(s).Some? && s[FindKey(s).value.value..FindKey(s).value.cr] == value
  {
    var s := pre + name + ": " + value + "\r\n" + rest;
    var p := |pre|;
    var m := p + 20 + |value|;
    HeaderLineParts(pre, name, value, rest);
    FindKeyFirst(s, p, p + 18, p + 20, m);
    FindKeyLineFeeds(s);
    FindKeySound(s);
    var r := FindKey(s).value;
    assert r.start == p;
    RunEnd(s, p + 18, r.colon);
    RunEnd(s, p + 19, p + 20);
    assert AllSpace(s[p + 19..r.value]);
    RunBound(s, p + 19, r.value);
    assert r.value == p + 20;
  }

  lemma HeaderLineParts(pre: string, name: string, value: string, rest: string)
    requires forall k :: 0 <= k < |pre| ==> pre[k] != '\n'
    requires IsKeyName(name)
    requires value != [] && !IsSpace(value[0]) && forall k :: 0 <= k < |value| ==> value[k] != '\n'
    ensures var s := pre + name + ": " + value + "\r\n" + rest; var p := |pre|;
      && KeyMatch(s, p, p + 18, p + 20, p + 20 + |value|)
      && (forall k :: 0 <= k < p ==> s[k] != '\n')
      && !IsSpace(s[p + 18]) && IsSpace(s[p + 19]) && !IsSpace(s[p + 20])
  {
    var s := pre + name + ": " + value + "\r\n" + rest;
    var p := |pre|;
    assert s[p..p + 18] == name;
    assert s[p + 18] == ':' && s[p + 19] == ' ';
    assert s[p + 19..p + 20] == [' '];
    assert s[p + 20..p + 20 + |value|] == value;
    assert s[p + 20] == value[0];
  }

  /** The same header as the last line of the request is missed: strip()
      removes the "\r\n\r\n" that ends the request, and with it the line
      break the regular expression needs after the key. */
  lemma KeyLastHeaderMissed(pre: string, name: string, value: string)
    requires pre != [] && !IsSpace(pre[0]) && forall k :: 0 <= k < |pre| ==> pre[k] != '\n'
    requires IsKeyName(name)
    requires value != [] && !IsSpace(value[|value| - 1]) && forall k :: 0 <= k < |value| ==> value[k] != '\n'
    ensures FindKey(Strip(pre + name + ": " + value + "\r\n\r\n")).None?
  {
    var s := pre + name + ": " + value;
    assert pre + name + ": " + value + "\r\n\r\n" == s + "\r\n\r\n";
    assert s[0] == pre[0] && s[|s| - 1] == value[|value| - 1];
    StripTrailing(s, "\r\n\r\n");
    if FindKey(s).Some? {
      FindKeyLineFeeds(s);
    }
  }

  /** A match starts at a line feed and ends at a later one. */
  lemma FindKeyLineFeeds(s: string)
    requires FindKey(s).Some?
    ensures var r := FindKey(s).value;
      r.start + 18 < r.cr + 1 < |s| && s[r.start] == '\n' && s[r.cr + 1] == '\n'
  {
    FindKeySound(s);
    var r := FindKey(s).value;
    assert NameChar(0, s[r.start..r.start + 18][0]);
  }

  /** A match always ends with a line feed; str.strip() removes the line
      breaks that end the request, so a key header on the last line of the
      stripped request is never found. */
  lemma KeyNotOnLastLine(text: string)
    requires FindKey(Strip(text)).Some?
    ensures var s := Strip(text); var r := FindKey(s).value;
      r.cr + 2 < |s| && FindFrom(s, '\n', r.value) == r.cr + 1
  {
    var s := Strip(text);
    KeyBeforeEnd(s);
  }

  lemma KeyBeforeEnd(s: string)
    requires FindKey(s).Some? && |s| > 0 && !IsSpace(s[|s| - 1])
    ensures var r := FindKey(s).value;
      r.cr + 2 < |s| && FindFrom(s, '\n', r.value) == r.cr + 1
  {
    FindKeySound(s);
    var r := FindKey(s).value;
    MatchEndsBeforeEnd(s, r.start, r.colon, r.value, r.cr);
  }

  lemma MatchEndsBeforeEnd(s: string, i: nat, a: nat, j: nat, m: nat)
    requires KeyMatch(s, i, a, j, m) && !IsSpace(s[|s| - 1])
    ensures m + 2 < |s| && FindFrom(s, '\n', j) == m + 1
  {
    assert IsSpace(s[m + 1]);
    FindFromAt(s, '\n', j, m);
  }

  /** The first c from i on is at m + 1 when s[m + 1] is c and none comes
      before. */
  lemma FindFromAt(s: string, c: char, i: nat, m: nat)
    requires i <= m && m + 1 < |s| && s[m] != c && s[m + 1] == c
    requires forall k :: i <= k < m ==> s[k] != c
    ensures FindFrom(s, c, i) == m + 1
  {
  }

  // ---------------------------------------------------------------- response

  /** calculate_response_key: the Base 64 text of the SHA-1 digest of the key
      followed by the GUID, stripped. key.encode() + GUID.encode() is written
      (key + GUID).encode(), the same bytes by Utf8.EncodeAppend. */
  function ResponseKey(key: string, sha1: seq<byte> -> seq<byte>): (r: string)
    ensures r == Base64.Encode(sha1(Encode(key + GUID)))
  {
    var digest := sha1(Encode(key + GUID));
    Base64.StripEncode(digest);
    Strip(Base64.Encode(digest))
  }

  const STATUS_LINE: string := "HTTP/1.1 101 Switching Protocols\r\n"
  const ACCEPT_PREFIX: string :=
    STATUS_LINE + "Upgrade: websocket\r\n" + "Connection: Upgrade\r\n" + "Sec-WebSocket-Accept: "

  /** make_handshake_response. */
  function ResponseText(accept: string): string
  {
    ACCEPT_PREFIX + accept + "\r\n\r\n"
  }

  /** The response starts with the 101 status line, carries the accept token
      after its header name and ends with the empty line that closes the
      header block. */
  lemma ResponseLayout(accept: string)
    ensures var t := ResponseText(accept);
      StartsWith(t, STATUS_LINE) && StartsWith(t, "HTTP/1.1 101 ")
      && t[|ACCEPT_PREFIX|..|ACCEPT_PREFIX| + |accept|] == accept
      && t[|t| - 4..] == "\r\n\r\n"
  {
    var t := ResponseText(accept);
    assert t[..|STATUS_LINE|] == STATUS_LINE;
    assert t[..13] == STATUS_LINE[..13];
  }

  /** The bytes sent decode back to the response text. */
  lemma ResponseBytes(accept: string)
    ensures Decode(Encode(ResponseText(accept))) == Some(ResponseText(accept))
  {
    DecodeEncode(ResponseText(accept));
  }

  // ---------------------------------------------------------------- handshake

  /** How handshake() ends for the bytes recv(1024) returned. */
  datatype HandshakeOutcome =
    | Undecodable                                  // .decode() raises UnicodeDecodeError
    | NoUpgrade                                    // keep_alive = False
    | NoKey                                        // keep_alive = False
    | Accepted(key: string, accept: string)        // response sent, client registered

  function Handshake(data: seq<byte>, sha1: seq<byte> -> seq<byte>): (r: HandshakeOutcome)
    ensures r == Undecodable <==> Decode(data).None?
  {
    match Decode(data)
    case None => Undecodable
    case Some(text) => Respond(Strip(text), sha1)
  }

  /** The handshake once the request is decoded and stripped. */
  function Respond(message: string, sha1: seq<byte> -> seq<byte>): (r: HandshakeOutcome)
    ensures r != Undecodable
  {
    if FindUpgrade(Lower(message)).None? then NoUpgrade
    else
      match FindKey(message)
      case None => NoKey
      case Some(p) =>
        var key := message[p.value..p.cr];
        Accepted(key, ResponseKey(key, sha1))
  }

  /** A request is accepted exactly when it matches both regular expressions,
      the upgrade one after lower-casing. */
  lemma RespondAccepted(s: string, sha1: seq<byte> -> seq<byte>)
    ensures Respond(s, sha1).Accepted? <==> FindUpgrade(Lower(s)).Some? && FindKey(s).Some?
  {
  }

  /** The key answered is the group of the match Python picks, and the accept
      token is the Base 64 digest of that key and the GUID. */
  lemma RespondKey(s: string, sha1: seq<byte> -> seq<byte>)
    requires Respond(s, sha1).Accepted?
    ensures var p := FindKey(s).value;
      && KeyMatch(s, p.start, p.colon, p.value, p.cr) && Respond(s, sha1).key == s[p.value..p.cr]
      && Respond(s, sha1).accept == Base64.Encode(sha1(Encode(s[p.value..p.cr] + GUID)))
  {
    FindKeySound(s);
  }
}
