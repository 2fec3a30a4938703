/** Quoting of strings in API replies, and the parser for quoted, comma-separated parameters.
    Strings are the characters before the terminating zero. */
module ApiQuote {
  import opened Basics

  predicate Special(c: char, isJson: bool) {
    c == '\\' || if isJson then c == '"' else c == ',' || c == '|' || c == '='
  }

  function Escape(s: string, isJson: bool): (r: string)
    ensures |r| == |s| + Count(s, isJson)
  {
    if s == "" then ""
    else (if Special(s[0], isJson) then ['\\', s[0]] else [s[0]]) + Escape(s[1..], isJson)
  }

  function Count(s: string, isJson: bool): nat {
    if s == "" then 0 else (if Special(s[0], isJson) then 1 else 0) + Count(s[1..], isJson)
  }

  /** Escapes a string into a buffer of exactly the counted size; `used` is how much of it was
      filled, with the terminating zero. A string without special characters is returned as
      it is, and no buffer is used. */
  method EscapeString(str: string, isJson: bool) returns (r: string, used: nat)
    ensures r == Escape(str, isJson)
    ensures used == if Count(str, isJson) == 0 then 0 else |str| + Count(str, isJson) + 1
    ensures var m := multiset(str);
            var special := m['\\'] + if isJson then m['"'] else m[','] + m['|'] + m['='];
            used == if special == 0 then 0 else |str| + special + 1
  {
    hide Escape, Count;
    var count := CountSpecial(str, isJson);
    CountIs(str, isJson);
    EscapeLength(str, isJson);
    if count == 0 {
      return str, 0;
    }
    var buf := new char[|str| + count + 1];
    FillEscaped(str, isJson, buf);
    r, used := buf[..|str| + count], buf.Length;
  }

  method FillEscaped(str: string, isJson: bool, buf: array<char>)
    requires buf.Length == |Escape(str, isJson)| + 1
    modifies buf
    ensures buf[..buf.Length - 1] == Escape(str, isJson) && buf[buf.Length - 1] == '\0'
  {
    hide Escape, Special;
    var ptr := 0;
    assert str[0..] == str;
    for i := 0 to |str|
      invariant 0 <= ptr && ptr + |Escape(str[i..], isJson)| == buf.Length - 1
      invariant buf[..ptr] + Escape(str[i..], isJson) == Escape(str, isJson)
    {
      EscapeStep(str, i, isJson);
      if Special(str[i], isJson) {
        buf[ptr], buf[ptr + 1] := '\\', str[i];
        assert buf[..ptr + 2] == buf[..ptr] + ['\\', str[i]];
        ptr := ptr + 2;
      } else {
        buf[ptr] := str[i];
        assert buf[..ptr + 1] == buf[..ptr] + [str[i]];
        ptr := ptr + 1;
      }
    }
    EscapeEnd(str[|str|..], isJson);
    buf[ptr] := '\0';
    assert ptr == buf.Length - 1;
  }

  lemma EscapeStep(s: string, i: nat, isJson: bool)
    requires i < |s|
    ensures Escape(s[i..], isJson)
            == (if Special(s[i], isJson) then ['\\', s[i]] else [s[i]]) + Escape(s[i + 1..], isJson)
  {
    assert s[i..][1..] == s[i + 1..];
  }

  lemma EscapeEnd(s: string, isJson: bool)
    requires s == ""
    ensures Escape(s, isJson) == ""
  {
  }

  lemma {:induction false} EscapeLength(s: string, isJson: bool)
    ensures |Escape(s, isJson)| == |s| + Count(s, isJson)
    ensures Count(s, isJson) == 0 ==> Escape(s, isJson) == s
  {
    if s != "" {
      EscapeLength(s[1..], isJson);
    }
  }

  /** What is quoted: the backslash, and the quotation mark in JSON, the three separators in text. */
  lemma {:induction false} CountIs(s: string, isJson: bool)
    ensures var m := multiset(s);
            Count(s, isJson) == m['\\'] + if isJson then m['"'] else m[','] + m['|'] + m['=']
  {
    if s != "" {
      CountIs(s[1..], isJson);
      OneMore(s);
      hide Special;
      CountHead(s, isJson);
    }
  }

  lemma OneMore(s: string)
    requires s != ""
    ensures forall c: char :: multiset(s)[c] == multiset(s[1..])[c] + if s[0] == c then 1 else 0
  {
    assert s == [s[0]] + s[1..];
    assert multiset(s) == multiset{s[0]} + multiset(s[1..]);
  }

  lemma CountHead(s: string, isJson: bool)
    requires s != ""
    ensures var c, n := s[0], Count(s[1..], isJson);
            Count(s, isJson) == n + if c == '\\' || if isJson then c == '"' else c == ',' || c == '|' || c == '='
                                    then 1 else 0
  {
  }

  method CountSpecial(str: string, isJson: bool) returns (count: nat)
    ensures count == Count(str, isJson)
  {
    count := 0;
    assert str[0..] == str;
    for i := 0 to |str|
      invariant count + Count(str[i..], isJson) == Count(str, isJson)
    {
      assert str[i..][1..] == str[i + 1..];
      if Special(str[i], isJson) {
        count := count + 1;
      }
    }
  }

  // ----- the parser

  /** Reads up to the next unquoted `ch`: what was read, without its quoting, and the rest. */
  function Field(ch: char, s: string): (r: (string, string))
    ensures |r.1| <= |s|
    decreases |s|
  {
    if s == "" then ("", "")
    else if s[0] == ch then ("", s[1..])
    else if s[0] == '\\' && |s| > 1 then
      var (f, rest) := Field(ch, s[2..]);
      ([s[1]] + f, rest)
    else
      var (f, rest) := Field(ch, s[1..]);
      ([s[0]] + f, rest)
  }

  /** url, user and password; nothing may be missing after the second comma. */
  function Details(s: string): Option<(string, string, string)> {
    var (url, s1) := Field(',', s);
    if s1 == "" then None
    else
      var (user, s2) := Field(',', s1);
      if s2 == "" then None
      else Some((url, user, Field(',', s2).0))
  }

  /** Copies one field into the buffer, with a terminating zero. It writes no more than it
      reads, plus the zero when no separator ended the field. */
  method CopyAdvanceAfter(ch: char, s: string, from: nat, buf: array<char>, at: nat) returns (next: nat, end: nat)
    requires from <= |s| && at + (|s| - from) + 1 <= buf.Length
    modifies buf
    ensures from <= next <= |s| && at < end <= buf.Length
    ensures end - at <= next - from + 1 && (next < |s| ==> end - at <= next - from)
    ensures buf[at..end] == Field(ch, s[from..]).0 + ['\0'] && s[next..] == Field(ch, s[from..]).1
    ensures forall k :: 0 <= k < at || end <= k < buf.Length ==> buf[k] == old(buf[k])
  {
    hide Field;
    next, end := from, at;
    ghost var whole, copied := Field(ch, s[from..]), "";
    assert copied + whole.0 == whole.0;
    while next < |s| && s[next] != ch
      invariant from <= next <= |s| && at <= end && end - at <= next - from
      invariant copied == buf[at..end]
      invariant whole == (copied + Field(ch, s[next..]).0, Field(ch, s[next..]).1)
      invariant forall k :: 0 <= k < at || end <= k < buf.Length ==> buf[k] == old(buf[k])
    {
      FieldStep(ch, s, next);
      if s[next] == '\\' && next + 1 < |s| {
        next := next + 1;
      }
      AppendAssociates(copied, s[next], Field(ch, s[next + 1..]).0);
      buf[end] := s[next];
      copied := copied + [s[next]];
      next, end := next + 1, end + 1;
    }
    FieldEnd(ch, s, next);
    assert copied + "" == copied;
    if next < |s| {
      next := next + 1;
    }
    buf[end] := '\0';
    end := end + 1;
    assert buf[at..end] == copied + ['\0'];
  }

  lemma AppendAssociates(a: string, c: char, b: string)
    ensures a + ([c] + b) == (a + [c]) + b
  {
  }

  lemma FieldStep(ch: char, s: string, i: nat)
    requires i < |s| && s[i] != ch
    ensures var j := if s[i] == '\\' && i + 1 < |s| then i + 1 else i;
            && Field(ch, s[i..]).0 == [s[j]] + Field(ch, s[j + 1..]).0
            && Field(ch, s[i..]).1 == Field(ch, s[j + 1..]).1
  {
    assert s[i..][1..] == s[i + 1..];
    if s[i] == '\\' && i + 1 < |s| {
      assert s[i..][2..] == s[i + 2..];
    }
  }

  lemma FieldEnd(ch: char, s: string, i: nat)
    requires i <= |s| && (i < |s| ==> s[i] == ch)
    ensures Field(ch, s[i..]) == ("", s[if i < |s| then i + 1 else i..])
  {
    if i < |s| {
      assert s[i..][1..] == s[i + 1..];
    }
  }

  /** Splits a parameter into three zero-terminated strings in one buffer of the parameter's
      length plus one, and never writes outside it. */
  method PoolDetails(param: string) returns (r: Option<(string, string, string)>, used: nat)
    ensures r == Details(param)
    ensures used <= |param| + 1
  {
    hide Field;
    var buf := new char[|param| + 1];
    assert param[0..] == param;
    var p1, d1 := CopyAdvanceAfter(',', param, 0, buf, 0);
    if p1 == |param| {
      return None, d1;
    }
    var url := buf[..d1 - 1];
    assert url == buf[0..d1][..d1 - 1];
    var p2, d2 := CopyAdvanceAfter(',', param, p1, buf, d1);
    if p2 == |param| {
      return None, d2;
    }
    var user := buf[d1..d2 - 1];
    assert user == buf[d1..d2][..d2 - d1 - 1];
    var _, d3 := CopyAdvanceAfter(',', param, p2, buf, d2);
    var pass := buf[d2..d3 - 1];
    assert pass == buf[d2..d3][..d3 - d2 - 1];
    r, used := Some((url, user, pass)), d3;
  }

  // ----- round trips

  /** Reading one character: quoted, plain, or the separator. A quote with nothing after it is
      plain too. */
  lemma FieldHead(ch: char, c: char, rest: string)
    requires ch != '\\'
    ensures Field(ch, "") == ("", "") && Field(ch, ['\\']) == (['\\'], "")
    ensures Field(ch, ['\\', c] + rest) == ([c] + Field(ch, rest).0, Field(ch, rest).1)
    ensures c != ch && c != '\\' ==> Field(ch, [c] + rest) == ([c] + Field(ch, rest).0, Field(ch, rest).1)
    ensures c == ch ==> Field(ch, [c] + rest) == ("", rest)
  {
    assert (['\\', c] + rest)[2..] == rest && ([c] + rest)[1..] == rest;
    var lone := ['\\'];
    assert lone[1..] == "" && Field(ch, lone[1..]) == ("", "");
    assert Field(ch, lone).0 == ['\\'] + "" == ['\\'];
  }

  lemma EscapeHead(c: char, x: string, isJson: bool, tail: string)
    ensures Escape([c] + x, isJson) + tail
            == (if Special(c, isJson) then ['\\', c] else [c]) + (Escape(x, isJson) + tail)
  {
    assert ([c] + x)[1..] == x;
  }

  lemma FieldOfTail(ch: char, tail: string)
    requires tail == "" || tail[0] == ch
    ensures Field(ch, tail) == ("", if tail == "" then "" else tail[1..])
  {
  }

  /** A quoted string before any of the separators of its kind, or at the end, is read back. */
  lemma {:induction false} FieldOfEscaped(ch: char, x: string, isJson: bool, tail: string)
    requires tail == "" || tail[0] == ch
    requires if isJson then ch == '"' else ch == ',' || ch == '|' || ch == '='
    ensures Field(ch, Escape(x, isJson) + tail) == (x, if tail == "" then "" else tail[1..])
    decreases |x|
  {
    hide Escape, Field;
    if x == "" {
      FieldOfTail(ch, tail);
      EscapeEnd(x, isJson);
      assert "" + tail == tail;
    } else {
      FieldOfEscaped(ch, x[1..], isJson, tail);
      assert x == [x[0]] + x[1..];
      EscapeHead(x[0], x[1..], isJson, tail);
      FieldHead(ch, x[0], Escape(x[1..], isJson) + tail);
    }
  }

  function Joined(url: string, user: string, pass: string, isJson: bool): string {
    Escape(url, isJson) + "," + Escape(user, isJson) + "," + Escape(pass, isJson)
  }

  /** Escaping three strings, joining them with commas and parsing gives the three strings
      back, exactly when there is a password to find. */
  lemma DetailsRoundTrip(url: string, user: string, pass: string)
    ensures Details(Joined(url, user, pass, false)) == if pass == "" then None else Some((url, user, pass))
  {
    hide Escape, Field;
    var e2 := Escape(pass, false);
    var e1 := Escape(user, false) + ("," + e2);
    assert Joined(url, user, pass, false) == Escape(url, false) + ("," + e1);
    FieldOfEscaped(',', url, false, "," + e1);
    FieldOfEscaped(',', user, false, "," + e2);
    FieldOfEscaped(',', pass, false, "");
    assert e2 + "" == e2;
    EscapeLength(pass, false);
    assert ("," + e1)[1..] == e1 && ("," + e2)[1..] == e2;
  }

  /** JSON quoting leaves commas alone, so it survives the parser only without them. */
  lemma {:induction false} FieldOfJson(x: string, tail: string)
    requires tail == "" || tail[0] == ','
    ensures ',' !in x ==> Field(',', Escape(x, true) + tail) == (x, if tail == "" then "" else tail[1..])
    ensures ',' in x ==> |Field(',', Escape(x, true) + tail).0| < |x|
    decreases |x|
  {
    hide Escape, Field;
    if x == "" {
      FieldOfTail(',', tail);
      EscapeEnd(x, true);
      assert "" + tail == tail;
    } else {
      FieldOfJson(x[1..], tail);
      assert x == [x[0]] + x[1..];
      EscapeHead(x[0], x[1..], true, tail);
      FieldHead(',', x[0], Escape(x[1..], true) + tail);
    }
  }

  lemma JsonRoundTripIff(url: string, user: string, pass: string)
    requires pass != ""
    ensures Details(Joined(url, user, pass, true)) == Some((url, user, pass))
            <==> ',' !in url && ',' !in user && ',' !in pass
  {
    hide Escape, Field;
    var e2 := Escape(pass, true);
    var e1 := Escape(user, true) + ("," + e2);
    assert Joined(url, user, pass, true) == Escape(url, true) + ("," + e1);
    FieldOfJson(url, "," + e1);
    FieldOfJson(user, "," + e2);
    FieldOfJson(pass, "");
    assert e2 + "" == e2;
    EscapeLength(pass, true);
    assert ("," + e1)[1..] == e1 && ("," + e2)[1..] == e2;
  }
}
