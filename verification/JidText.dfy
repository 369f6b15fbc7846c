/** Printing and parsing of user identifiers: types/jid.go. */
module JidText {
  import opened Bytes
  import opened Decimal
  import opened Jid

  const AT: byte := 64
  const DOT: byte := 46
  const COLON: byte := 58

  /** strings.Split by one character. */
  function Split(s: Bytes, sep: byte): (parts: seq<Bytes>)
    ensures |parts| >= 1
  {
    if s == [] then [[]] else
      var rest := Split(s[1..], sep);
      if s[0] == sep then [[]] + rest else [[s[0]] + rest[0]] + rest[1..]
  }

  datatype ParseError = Dots | Colons | Number

  /** The name parts before the first two '@'; what follows a second one is ignored. */
  function ParseJID(text: Bytes): Result<JID, ParseError>
  {
    var parts := Split(text, AT);
    if |parts| == 1 then Ok(NewJID([], parts[0]))
    else if DOT in parts[0] then ParseAD(Split(parts[0], DOT), parts[1])
    else if COLON in parts[0] then ParseDevice(Split(parts[0], COLON), parts[1])
    else Ok(NewJID(parts[0], parts[1]))
  }

  /** "user.agent" or "user.agent:device"; numbers are cut down to their types' widths. */
  function ParseAD(parts: seq<Bytes>, server: Bytes): Result<JID, ParseError>
  {
    if |parts| != 2 then Err(Dots) else
      var ad := Split(parts[1], COLON);
      if |ad| > 2 then Err(Colons) else
        var agent := Atoi(ad[0]);
        if agent.None? then Err(Number)
        else if |ad| == 1 then Ok(JID(parts[0], agent.value % 256, 0, 0, server))
        else
          var device := Atoi(ad[1]);
          if device.None? then Err(Number)
          else Ok(JID(parts[0], agent.value % 256, device.value % 0x1_0000, 0, server))
  }

  /** "user:device" */
  function ParseDevice(parts: seq<Bytes>, server: Bytes): Result<JID, ParseError>
  {
    if |parts| != 2 then Err(Colons) else
      var device := Atoi(parts[1]);
      if device.None? then Err(Number) else Ok(JID(parts[0], 0, device.value % 0x1_0000, 0, server))
  }

  function ADString(j: JID): Bytes
  {
    j.user + [DOT] + Digits(j.rawAgent) + [COLON] + Digits(j.device) + [AT] + j.server
  }

  function String(j: JID): Bytes
  {
    if j.rawAgent > 0 then ADString(j)
    else if j.device > 0 then j.user + [COLON] + Digits(j.device) + [AT] + j.server
    else if |j.user| > 0 then j.user + [AT] + j.server
    else j.server
  }

  /* ---------- Splitting ---------- */

  lemma {:induction false} SplitWhole(s: Bytes, sep: byte)
    requires sep !in s
    ensures Split(s, sep) == [s]
  {
    if s != [] {
      SplitWhole(s[1..], sep);
      assert [s[0]] + s[1..] == s;
    }
  }

  lemma {:induction false} SplitAt(a: Bytes, sep: byte, b: Bytes)
    requires sep !in a
    ensures Split(a + [sep] + b, sep) == [a] + Split(b, sep)
  {
    var s := a + [sep] + b;
    if a == [] {
      assert s[0] == sep && s[1..] == b;
    } else {
      assert s[0] == a[0] && s[1..] == a[1..] + [sep] + b;
      SplitAt(a[1..], sep, b);
      assert [a[0]] + a[1..] == a && ([a[1..]] + Split(b, sep))[1..] == Split(b, sep);
    }
  }

  /** No part holds the separator, nor a character the text does not have. */
  lemma {:induction false} PartsAreClean(s: Bytes, sep: byte, i: nat, c: byte)
    requires i < |Split(s, sep)| && (c == sep || c !in s)
    ensures c !in Split(s, sep)[i]
  {
    if s != [] {
      var rest := Split(s[1..], sep);
      if s[0] == sep {
        if i > 0 {
          PartsAreClean(s[1..], sep, i - 1, c);
        }
      } else {
        PartsAreClean(s[1..], sep, i, c);
      }
    }
  }

  /* ---------- Numbers ---------- */

  lemma AtoiDigits(n: nat)
    requires n < 0x1_0000
    ensures Atoi(Digits(n)) == Some(n)
    ensures AT !in Digits(n) && DOT !in Digits(n) && COLON !in Digits(n)
  {
    DigitsParse(n);
    forall i | 0 <= i < |Digits(n)| ensures 48 <= Digits(n)[i] <= 57 {
      DigitsAreDigits(n, i);
    }
    hide Digits, ParseDigits;
    assert 48 <= Digits(n)[0] <= 57;
  }

  /* ---------- Parsing what was printed ---------- */

  predicate Nameable(j: JID)
  {
    AT !in j.user && DOT !in j.user && AT !in j.server && j.integrator == 0
  }

  /** A ':' in the user does no harm where the agent is printed too. */
  predicate Printable(j: JID)
  {
    Nameable(j) && (COLON !in j.user || j.rawAgent > 0)
  }

  /** Whatever is parsed has a user without '@' and '.', a server without '@', and no integrator. */
  lemma ParsedIsNameable(text: Bytes)
    ensures ParseJID(text).Ok? ==> Nameable(ParseJID(text).value)
  {
    hide Split, Atoi;
    var parts := Split(text, AT);
    PartsAreClean(text, AT, 0, AT);
    if |parts| > 1 {
      PartsAreClean(text, AT, 1, AT);
      var users := Split(parts[0], DOT);
      PartsAreClean(parts[0], DOT, 0, AT);
      PartsAreClean(parts[0], DOT, 0, DOT);
      var others := Split(parts[0], COLON);
      PartsAreClean(parts[0], COLON, 0, AT);
      if DOT !in parts[0] {
        PartsAreClean(parts[0], COLON, 0, DOT);
      }
    }
  }

  lemma ParseBeforeAt(user: Bytes, server: Bytes)
    requires AT !in user && AT !in server
    ensures ParseJID(user + [AT] + server) ==
            if DOT in user then ParseAD(Split(user, DOT), server)
            else if COLON in user then ParseDevice(Split(user, COLON), server)
            else Ok(NewJID(user, server))
  {
    hide Split, ParseAD, ParseDevice;
    SplitAt(user, AT, server);
    SplitWhole(server, AT);
  }

  lemma ParseADString(j: JID)
    requires Nameable(j)
    ensures ParseJID(ADString(j)) == Ok(j)
  {
    hide Split, Digits, Atoi;
    var agent, device := Digits(j.rawAgent), Digits(j.device);
    AtoiDigits(j.rawAgent);
    AtoiDigits(j.device);
    var ad := agent + [COLON] + device;
    SplitAt(agent, COLON, device);
    SplitWhole(device, COLON);
    var user := j.user + [DOT] + ad;
    SplitAt(j.user, DOT, ad);
    SplitWhole(ad, DOT);
    assert DOT in user by { assert user[|j.user|] == DOT; }
    assert ADString(j) == user + [AT] + j.server;
    ParseBeforeAt(user, j.server);
  }

  lemma ParseDeviceString(j: JID)
    requires Nameable(j) && j.rawAgent == 0 && j.device > 0
    ensures ParseJID(String(j)) == Ok(j) <==> COLON !in j.user
  {
    hide Split, Digits, Atoi;
    var device := Digits(j.device);
    AtoiDigits(j.device);
    var user := j.user + [COLON] + device;
    assert COLON in user by { assert user[|j.user|] == COLON; }
    assert String(j) == user + [AT] + j.server;
    ParseBeforeAt(user, j.server);
    PartsAreClean(user, COLON, 0, COLON);
    if COLON !in j.user {
      SplitAt(j.user, COLON, device);
      SplitWhole(device, COLON);
    }
  }

  lemma ParsePlainString(j: JID)
    requires Nameable(j) && j.rawAgent == 0 && j.device == 0
    ensures ParseJID(String(j)) == Ok(j) <==> COLON !in j.user
  {
    hide Split, Atoi;
    if |j.user| > 0 {
      ParseBeforeAt(j.user, j.server);
      PartsAreClean(j.user, COLON, 0, COLON);
    } else {
      SplitWhole(j.server, AT);
    }
  }

  /** ParseJID undoes ADString on exactly the identifiers that ParseJID can produce at all. */
  lemma ADStringParsesIff(j: JID)
    ensures ParseJID(ADString(j)) == Ok(j) <==> Nameable(j)
    ensures (exists text :: ParseJID(text) == Ok(j)) <==> Nameable(j)
  {
    hide ParseJID, ADString, Nameable;
    ParsedIsNameable(ADString(j));
    if Nameable(j) {
      ParseADString(j);
    }
    if text :| ParseJID(text) == Ok(j) {
      ParsedIsNameable(text);
    }
  }

  /** ParseJID undoes String exactly for nameable users without ':', or with one where the agent is printed too. */
  lemma StringParsesIff(j: JID)
    ensures ParseJID(String(j)) == Ok(j) <==> Printable(j)
  {
    hide ParseJID;
    ParsedIsNameable(String(j));
    if Nameable(j) {
      if j.rawAgent > 0 {
        ParseADString(j);
      } else if j.device > 0 {
        ParseDeviceString(j);
      } else {
        ParsePlainString(j);
      }
    }
  }

  lemma ADStringInjective(a: JID, b: JID)
    requires Nameable(a) && Nameable(b) && ADString(a) == ADString(b)
    ensures a == b
  {
    hide ParseJID, ADString;
    ParseADString(a);
    ParseADString(b);
  }

  /** One identifier in each of the written forms, character by character. */
  lemma WrittenForms(server: Bytes)
    ensures ADString(JID([49], 2, 13, 0, server)) == [49, DOT, 50, COLON, 49, 51, AT] + server
    ensures String(JID([49], 2, 13, 0, server)) == [49, DOT, 50, COLON, 49, 51, AT] + server
    ensures String(JID([49], 0, 13, 0, server)) == [49, COLON, 49, 51, AT] + server
    ensures String(JID([49], 0, 0, 0, server)) == [49, AT] + server
    ensures String(JID([], 0, 0, 0, server)) == server
  {
    assert Digits(13) == Digits(1) + [51] && Digits(1) == [49];
  }

  /* ---------- What is refused ---------- */

  function Count(s: Bytes, c: byte): nat
  {
    multiset(s)[c]
  }

  lemma {:induction false} SplitCounts(s: Bytes, sep: byte)
    ensures |Split(s, sep)| == Count(s, sep) + 1
  {
    if s != [] {
      SplitCounts(s[1..], sep);
      TailMultiset(s);
    }
  }

  /** Before the '@': two dots are too many, and so are two colons after a dot, or without one. */
  lemma RefusedTexts(user: Bytes, server: Bytes)
    requires AT !in user && AT !in server
    ensures Count(user, DOT) > 1 ==> ParseJID(user + [AT] + server) == Err(Dots)
    ensures Count(user, DOT) == 0 && Count(user, COLON) > 1 ==> ParseJID(user + [AT] + server) == Err(Colons)
  {
    hide Split, Atoi;
    ParseBeforeAt(user, server);
    SplitCounts(user, DOT);
    SplitCounts(user, COLON);
    assert DOT in user <==> DOT in multiset(user);
    assert COLON in user <==> COLON in multiset(user);
  }

  /** After the dot: more than one colon is too many; what is not a number is refused. */
  lemma RefusedNumbers(user: Bytes, ad: Bytes, server: Bytes)
    requires AT !in user && DOT !in user && AT !in ad && DOT !in ad && AT !in server
    ensures var text := user + [DOT] + ad + [AT] + server;
            && (Count(ad, COLON) > 1 ==> ParseJID(text) == Err(Colons))
            && (Count(ad, COLON) == 0 && Atoi(ad).None? ==> ParseJID(text) == Err(Number))
            && (Count(ad, COLON) == 0 && Atoi(ad).Some? ==>
                  ParseJID(text) == Ok(JID(user, Atoi(ad).value % 256, 0, 0, server)))
  {
    hide Split, Atoi;
    var name := user + [DOT] + ad;
    assert name[|user|] == DOT;
    ParseBeforeAt(name, server);
    SplitAt(user, DOT, ad);
    SplitWhole(ad, DOT);
    SplitCounts(ad, COLON);
    if Count(ad, COLON) == 0 {
      assert COLON !in multiset(ad);
      SplitWhole(ad, COLON);
    }
  }

  /** Numbers are cut down to the width of their field: device 65537 is read as device 1. */
  lemma WideNumbers(user: Bytes, server: Bytes, n: nat)
    requires AT !in user && DOT !in user && COLON !in user && AT !in server && n < 0x8000_0000_0000_0000
    ensures ParseJID(user + [COLON] + Digits(n) + [AT] + server) == Ok(JID(user, 0, n % 0x1_0000, 0, server))
  {
    DigitsParse(n);
    forall i | 0 <= i < |Digits(n)| ensures 48 <= Digits(n)[i] <= 57 {
      DigitsAreDigits(n, i);
    }
    hide Split, Digits, ParseDigits;
    assert 48 <= Digits(n)[0] <= 57;
    assert Atoi(Digits(n)) == Some(n);
    hide Atoi;
    var name := user + [COLON] + Digits(n);
    assert name[|user|] == COLON;
    ParseBeforeAt(name, server);
    SplitAt(user, COLON, Digits(n));
    SplitWhole(Digits(n), COLON);
  }
}
