// Escaping and unescaping of text in the API (api.c), on buffers of characters that end with NUL.
module Escape {
  import opened Wrappers

  const NUL := '\0'

  // The buffer holds the text s.
  ghost predicate Holds(a: array<char>, s: string)
    reads a
  {
    |s| < a.Length && a[..|s|] == s && a[|s|] == NUL && NUL !in s
  }

  // The characters that get a backslash.
  predicate Special(c: char, json: bool) {
    c == '\\' || if json then c == '"' else c == ',' || c == '|' || c == '='
  }

  function EscapedChar(c: char, json: bool): string {
    if Special(c, json) then ['\\', c] else [c]
  }

  function Escaped(s: string, json: bool): string {
    if s == "" then "" else EscapedChar(s[0], json) + Escaped(s[1..], json)
  }

  function Specials(s: string, json: bool): nat {
    if s == "" then 0 else (if Special(s[0], json) then 1 else 0) + Specials(s[1..], json)
  }

  lemma {:induction false} EscapedExtend(s: string, c: char, json: bool)
    ensures Escaped(s + [c], json) == Escaped(s, json) + EscapedChar(c, json)
    ensures Specials(s + [c], json) == Specials(s, json) + if Special(c, json) then 1 else 0
  {
    hide EscapedChar;
    hide Special;
    if s == "" {
      assert s + [c] == [c] && [c][1..] == "";
    } else {
      EscapedExtend(s[1..], c, json);
      assert (s + [c])[1..] == s[1..] + [c];
      EscapedStep(s, json);
      EscapedStep(s + [c], json);
      hide Escaped;
      hide Specials;
    }
  }

  lemma EscapedStep(s: string, json: bool)
    requires s != ""
    ensures Escaped(s, json) == EscapedChar(s[0], json) + Escaped(s[1..], json)
    ensures Specials(s, json) == (if Special(s[0], json) then 1 else 0) + Specials(s[1..], json)
  {
  }

  // The two passes agree: one character more for every special one.
  lemma {:induction false} EscapedLength(s: string, json: bool)
    ensures |Escaped(s, json)| == |s| + Specials(s, json)
    ensures Specials(s, json) == 0 ==> Escaped(s, json) == s
    ensures NUL !in s ==> NUL !in Escaped(s, json)
  {
    if s != "" {
      EscapedLength(s[1..], json);
      assert s == [s[0]] + s[1..];
    }
  }

  lemma EscapedPrefix(s: string, i: nat, json: bool)
    requires i < |s|
    ensures Escaped(s[..i + 1], json) == Escaped(s[..i], json) + EscapedChar(s[i], json)
    ensures Specials(s[..i + 1], json) == Specials(s[..i], json) + if Special(s[i], json) then 1 else 0
  {
    EscapedExtend(s[..i], s[i], json);
    assert s[..i] + [s[i]] == s[..i + 1];
  }

  lemma EscapedPrefixNone(s: string, json: bool)
    ensures Escaped(s[..0], json) == ""
  {
  }

  // What was written after the first i characters fits, with room for the rest.
  lemma {:induction false} EscapedFits(s: string, i: nat, json: bool)
    requires i <= |s|
    ensures |Escaped(s[..i], json)| + (|s| - i) <= |Escaped(s, json)|
    decreases |s| - i
  {
    if i == |s| {
      assert s[..i] == s;
    } else {
      EscapedFits(s, i + 1, json);
      EscapedPrefix(s, i, json);
    }
  }

  method Strlen(a: array<char>, ghost s: string) returns (n: nat)
    requires Holds(a, s)
    ensures n == |s|
  {
    n := 0;
    while a[n] != NUL
      invariant n <= |s|
      decreases |s| - n
    {
      assert a[n] == a[..|s|][n];
      n := n + 1;
    }
  }

  // The counting pass.
  method CountSpecials(str: array<char>, json: bool, ghost s: string) returns (count: nat)
    requires Holds(str, s)
    ensures count == Specials(s, json)
  {
    count := 0;
    var ptr := 0;
    while str[ptr] != NUL
      invariant ptr <= |s| && count == Specials(s[..ptr], json)
      decreases |s| - ptr
    {
      assert str[ptr] == s[ptr];
      EscapedPrefix(s, ptr, json);
      match str[ptr] {
        case ',' | '|' | '=' =>
          if !json {
            count := count + 1;
          }
        case '"' =>
          if json {
            count := count + 1;
          }
        case '\\' =>
          count := count + 1;
        case _ =>
      }
      ptr := ptr + 1;
    }
    assert s[..ptr] == s;
  }

  // escape_string: the text itself if nothing is special, else a new buffer that the result fills exactly.
  method EscapeString(str: array<char>, json: bool, ghost s: string) returns (buf: array<char>)
    requires Holds(str, s)
    ensures Holds(buf, Escaped(s, json))
    ensures buf == str <==> Specials(s, json) == 0
    ensures buf != str ==> fresh(buf) && buf.Length == |Escaped(s, json)| + 1
  {
    var count := CountSpecials(str, json, s);
    EscapedLength(s, json);
    if count == 0 {
      return str;
    }
    var length := Strlen(str, s);
    buf := new char[length + count + 1];
    WriteEscaped(str, json, buf, s);
  }

  // Write one character, with a backslash before it if it is special.
  method Put(buf: array<char>, ptr: nat, c: char, special: bool) returns (next: nat)
    requires ptr + (if special then 2 else 1) <= buf.Length
    modifies buf
    ensures next == ptr + (if special then 2 else 1)
    ensures buf[..next] == old(buf[..ptr]) + if special then ['\\', c] else [c]
  {
    next := ptr;
    if special {
      buf[next] := '\\';
      next := next + 1;
    }
    buf[next] := c;
    next := next + 1;
  }

  // The writing pass.
  method WriteEscaped(str: array<char>, json: bool, buf: array<char>, ghost s: string)
    requires Holds(str, s) && buf != str && buf.Length == |Escaped(s, json)| + 1
    modifies buf
    ensures Holds(buf, Escaped(s, json))
  {
    EscapedLength(s, json);
    hide Escaped;
    hide Specials;
    EscapedPrefixNone(s, json);
    var ptr, i := 0, 0;
    while str[i] != NUL
      invariant i <= |s| && Holds(str, s)
      invariant ptr == |Escaped(s[..i], json)| && ptr + (|s| - i) <= |Escaped(s, json)|
      invariant buf[..ptr] == Escaped(s[..i], json)
      decreases |s| - i
    {
      assert str[i] == s[i];
      EscapedPrefix(s, i, json);
      EscapedFits(s, i + 1, json);
      var special := false;
      match str[i] {
        case ',' | '|' | '=' => special := !json;
        case '"' => special := json;
        case '\\' => special := true;
        case _ =>
      }
      ptr := Put(buf, ptr, str[i], special);
      i := i + 1;
    }
    assert s[..i] == s;
    buf[ptr] := NUL;
  }

  // ---------- reading ----------

  // What copyadvanceafter copies up to a comma that is not escaped, and what is left after the comma.
  function ReadField(s: string): (string, string) {
    if s == "" then ("", "")
    else if s[0] == ',' then ("", s[1..])
    else if s[0] == '\\' && |s| > 1 then
      var (text, rest) := ReadField(s[2..]);
      ([s[1]] + text, rest)
    else
      var (text, rest) := ReadField(s[1..]);
      ([s[0]] + text, rest)
  }

  // ---------- reading the replies ----------

  // The characters that end a text: a quotation mark in JSON, or what stands between the fields of a reply.
  function Stops(json: bool): set<char> {
    if json then {'"'} else {',', '|', '='}
  }

  // The text up to a stop that has no backslash before it, and what is left from there on.
  function ReadTo(s: string, stops: set<char>): (r: (string, string))
    ensures |r.1| <= |s|
  {
    if s == "" || s[0] in stops then ("", s)
    else if s[0] == '\\' && |s| > 1 then
      var (text, rest) := ReadTo(s[2..], stops);
      ([s[1]] + text, rest)
    else
      var (text, rest) := ReadTo(s[1..], stops);
      ([s[0]] + text, rest)
  }

  lemma ReadToChar(c: char, rest: string, json: bool)
    ensures var (text, left) := ReadTo(rest, Stops(json));
            ReadTo(EscapedChar(c, json) + rest, Stops(json)) == ([c] + text, left)
  {
    var e := EscapedChar(c, json);
    assert (e + rest)[|e|..] == rest;
  }

  // Escaping protects every stop, in both forms.
  lemma {:induction false} ReadToEscaped(s: string, tail: string, json: bool)
    requires tail == "" || tail[0] in Stops(json)
    ensures ReadTo(Escaped(s, json) + tail, Stops(json)) == (s, tail)
  {
    if s == "" {
      assert Escaped(s, json) + tail == tail;
    } else {
      EscapedStep(s, json);
      ReadToEscaped(s[1..], tail, json);
      ReadToChar(s[0], Escaped(s[1..], json) + tail, json);
      hide ReadTo;
      hide Escaped;
      assert Escaped(s, json) + tail == EscapedChar(s[0], json) + (Escaped(s[1..], json) + tail);
      assert s == [s[0]] + s[1..];
    }
  }

  // And only what needs it: a character gets a backslash exactly if, left as it is, it would be misread.
  lemma SpecialIff(c: char, stop: char, json: bool)
    requires stop in Stops(json)
    ensures Special(c, json) <==> ReadTo([c, stop], Stops(json)) != ([c], [stop])
  {
    var s, stops := [c, stop], Stops(json);
    assert s[1..] == [stop] && s[2..] == "" && [c] + "" == [c];
    assert ReadTo([stop], stops) == ("", [stop]);
    if c in stops {
      assert ReadTo(s, stops).0 == "";
    } else if c == '\\' {
      assert |ReadTo(s, stops).1| == 0;
    } else {
      assert ReadTo(s, stops) == ([c], [stop]);
    }
  }

  datatype Details = Details(url: string, user: string, pass: string)

  // What pooldetails reads: three fields, the third of which must not be empty when the comma is reached.
  function ReadDetails(s: string): Option<Details> {
    var (url, r) := ReadField(s);
    if r == "" then None
    else
      var (user, q) := ReadField(r);
      if q == "" then None
      else Some(Details(url, user, ReadField(q).0))
  }

  lemma ReadChar(c: char, rest: string)
    ensures var (text, left) := ReadField(rest);
            ReadField(EscapedChar(c, false) + rest) == ([c] + text, left)
  {
    var e := EscapedChar(c, false);
    assert (e + rest)[|e|..] == rest;
  }

  lemma EscapedNothing(tail: string)
    ensures Escaped("", false) + tail == tail
  {
  }

  // Reading undoes escaping, and goes on with what follows.
  lemma {:induction false} ReadThrough(s: string, tail: string)
    ensures var (text, left) := ReadField(tail);
            ReadField(Escaped(s, false) + tail) == (s + text, left)
  {
    hide ReadField;
    hide Escaped;
    hide EscapedChar;
    var text := ReadField(tail).0;
    if s == "" {
      EscapedNothing(tail);
      assert s + text == text;
    } else {
      EscapedStep(s, false);
      ReadThrough(s[1..], tail);
      ReadChar(s[0], Escaped(s[1..], false) + tail);
      assert Escaped(s, false) + tail == EscapedChar(s[0], false) + (Escaped(s[1..], false) + tail);
      assert [s[0]] + (s[1..] + text) == s + text;
    }
  }

  // It stops at the end, where a last backslash stands for itself, and at a comma.
  lemma ReadEscaped(s: string, tail: string)
    requires tail == "" || tail == "\\" || tail[0] == ','
    ensures ReadField(Escaped(s, false) + tail)
         == if tail == "\\" then (s + tail, "") else (s, if tail == "" then "" else tail[1..])
  {
    ReadThrough(s, tail);
    hide Escaped;
    if tail == "\\" {
      assert tail[1..] == "" && tail == ['\\'] + "";
    } else {
      assert ReadField(tail).0 == "" && s + "" == s;
    }
  }

  function Joined(d: Details): string {
    Escaped(d.url, false) + ("," + (Escaped(d.user, false) + ("," + Escaped(d.pass, false))))
  }

  // Three fields read one after the other are the texts that were joined.
  lemma ReadJoined(d: Details)
    ensures var (url, r) := ReadField(Joined(d));
            var (user, q) := ReadField(r);
            && d == Details(url, user, ReadField(q).0)
            && r != "" && q == Escaped(d.pass, false)
  {
    var pass := Escaped(d.pass, false);
    var user := Escaped(d.user, false) + ("," + pass);
    hide Escaped;
    hide ReadField;
    ReadEscaped(d.url, "," + user);
    ReadEscaped(d.user, "," + pass);
    ReadEscaped(d.pass, "");
    assert ("," + user)[1..] == user && ("," + pass)[1..] == pass;
    assert pass + "" == pass;
  }

  // Main result: the escaped forms joined by commas give the three texts back exactly if the password is
  // not empty, and nothing otherwise.
  lemma RoundTrip(d: Details)
    ensures ReadDetails(Joined(d)) == if d.pass == "" then None else Some(d)
  {
    EscapedLength(d.pass, false);
    hide Escaped;
    hide ReadField;
    ReadJoined(d);
  }

  // Different details never have the same joined form, whatever the passwords are.
  lemma JoinedInjective(d: Details, e: Details)
    requires Joined(d) == Joined(e)
    ensures d == e
  {
    hide ReadField;
    ReadJoined(d);
    ReadJoined(e);
  }

  // ReadField on a suffix, one loop turn at a time.
  lemma ReadStep(s: string, i: nat)
    requires i < |s| && s[i] != ','
    ensures var k := if s[i] == '\\' && i + 1 < |s| then i + 1 else i;
            ReadField(s[i..]) == ([s[k]] + ReadField(s[k + 1..]).0, ReadField(s[k + 1..]).1)
  {
    if s[i] == '\\' && i + 1 < |s| {
      assert s[i..][2..] == s[i + 2..];
    } else {
      assert s[i..][1..] == s[i + 1..];
    }
  }

  lemma ReadStop(s: string, i: nat)
    requires i <= |s| && (i < |s| ==> s[i] == ',')
    ensures ReadField(s[i..]) == ("", s[if i < |s| then i + 1 else i..])
  {
    if i < |s| {
      assert s[i..][1..] == s[i + 1..];
    }
  }

  // copyadvanceafter: from position i of the text to position b of the buffer. The writing position never
  // overtakes the reading position while something is left to read.
  method CopyAdvanceAfter(param: array<char>, i: nat, buf: array<char>, b: nat, ghost s: string)
    returns (next: nat, end: nat)
    requires Holds(param, s) && buf != param && buf.Length == |s| + 1 && b <= i <= |s|
    modifies buf
    ensures i <= next <= |s| && b < end <= |s| + 1 && (next < |s| ==> end <= next)
    ensures s[next..] == ReadField(s[i..]).1
    ensures buf[b..end] == ReadField(s[i..]).0 + [NUL]
    ensures buf[..b] == old(buf[..b])
  {
    hide ReadField;
    next, end := i, b;
    ghost var copied := "";
    assert copied + ReadField(s[i..]).0 == ReadField(s[i..]).0;
    while param[next] != NUL && param[next] != ','
      invariant i <= next <= |s| && b <= end <= next
      invariant buf[..b] == old(buf[..b])
      invariant buf[b..end] == copied
      invariant ReadField(s[i..]).0 == copied + ReadField(s[next..]).0
      invariant ReadField(s[i..]).1 == ReadField(s[next..]).1
      decreases |s| - next
    {
      assert param[next] == s[next];
      assert next + 1 < |s| ==> param[next + 1] == s[next + 1];
      ReadStep(s, next);
      if param[next] == '\\' && param[next + 1] != NUL {
        next := next + 1;
      }
      assert param[next] == s[next];
      buf[end] := param[next];
      copied := copied + [s[next]];
      end, next := end + 1, next + 1;
    }
    assert next < |s| ==> param[next] == s[next];
    ReadStop(s, next);
    if param[next] != NUL {
      next := next + 1;
    }
    buf[end] := NUL;
    end := end + 1;
    assert copied + "" == copied;
  }

  // pooldetails: three positions in one buffer that is as long as the parameter with its NUL.
  method PoolDetails(param: array<char>, ghost s: string)
    returns (ok: bool, buf: array<char>, url: nat, user: nat, pass: nat)
    requires Holds(param, s)
    ensures fresh(buf) && buf.Length == |s| + 1
    ensures ok <==> ReadDetails(s).Some?
    ensures ok ==> var d := ReadDetails(s).value;
                   && TextAt(buf[..], url, d.url) && TextAt(buf[..], user, d.user) && TextAt(buf[..], pass, d.pass)
  {
    hide ReadField;
    var length := Strlen(param, s);
    buf := new char[length + 1];
    ok, url, user, pass := false, 0, 0, 0;
    assert s[0..] == s;
    var i, b := CopyAdvanceAfter(param, 0, buf, 0, s);
    EndOfText(param, s, i);
    if param[i] == NUL {
      return;
    }
    ghost var d := Details(ReadField(s).0, ReadField(ReadField(s).1).0, ReadField(ReadField(ReadField(s).1).1).0);
    ghost var first := buf[..b];
    TextStarts(first, 0, d.url);
    user := b;
    i, b := CopyAdvanceAfter(param, i, buf, b, s);
    EndOfText(param, s, i);
    if param[i] == NUL {
      return;
    }
    ghost var second := buf[..b];
    TextStarts(second, user, d.user);
    TextKept(first, second, 0, d.url);
    pass := b;
    i, b := CopyAdvanceAfter(param, i, buf, b, s);
    ghost var third := buf[..b];
    TextStarts(third, pass, d.pass);
    TextKept(second, third, 0, d.url);
    TextKept(second, third, user, d.user);
    TextKept(third, buf[..], 0, d.url);
    TextKept(third, buf[..], user, d.user);
    TextKept(third, buf[..], pass, d.pass);
    ok := true;
  }

  lemma EndOfText(param: array<char>, s: string, i: nat)
    requires Holds(param, s) && i <= |s|
    ensures param[i] == NUL <==> i == |s|
    ensures s[i..] == "" <==> i == |s|
  {
    if i < |s| {
      assert param[i] == param[..|s|][i];
    }
  }

  // The NUL-terminated text at a position of the buffer.
  ghost predicate TextAt(buf: string, at: nat, text: string) {
    at + |text| < |buf| && buf[at..at + |text| + 1] == text + [NUL]
  }

  lemma TextStarts(buf: string, at: nat, text: string)
    requires at <= |buf| && buf[at..] == text + [NUL]
    ensures TextAt(buf, at, text)
  {
    assert |buf[at..]| == |text| + 1;
    assert buf[at..at + |text| + 1] == buf[at..];
  }

  lemma TextKept(part: string, buf: string, at: nat, text: string)
    requires TextAt(part, at, text) && part <= buf
    ensures TextAt(buf, at, text)
  {
    assert buf[at..at + |text| + 1] == part[at..at + |text| + 1];
  }
}
