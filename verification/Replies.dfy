// What the printed fields of a reply say to a client that reads them.
module Replies {
  import opened ApiData
  import E = Escape

  // A client of the plain form: names and values in turn, up to the end of the section.
  function ReadPlain(s: string): seq<(string, string)>
    decreases |s|
  {
    if s == "" || s[0] == '|' then []
    else
      var (name, r) := E.ReadTo(s, E.Stops(false));
      if r == "" || r[0] != '=' then []
      else
        var (value, q) := E.ReadTo(r[1..], E.Stops(false));
        [(name, value)] + if q != "" && q[0] == ',' then ReadPlain(q[1..]) else []
  }

  // A client of the JSON form: members in turn, up to the closing brace. A value without quotation marks goes
  // on to a comma or a brace.
  function ReadJson(s: string): seq<(string, string)>
    decreases |s|
  {
    if s == "" || s[0] != '"' then []
    else
      var (name, r) := E.ReadTo(s[1..], E.Stops(true));
      if |r| < 2 || r[1] != ':' then []
      else
        var (value, q) := ReadValue(r[2..]);
        [(name, value)] + if q != "" && q[0] == ',' then ReadJson(q[1..]) else []
  }

  function ReadValue(s: string): (r: (string, string))
    ensures |r.1| <= |s|
  {
    if s != "" && s[0] == '"' then
      var (text, q) := E.ReadTo(s[1..], E.Stops(true));
      (text, if q == "" then "" else q[1..])
    else E.ReadTo(s, {',', '}'})
  }

  function ReadFields(s: string, json: bool): seq<(string, string)> {
    if json then ReadJson(s) else ReadPlain(s)
  }

  // Names and constants come from the program, and need no escapes; nor do numbers.
  ghost predicate Plain(s: string, json: bool) {
    E.Escaped(s, json) == s
  }

  ghost predicate Readable(f: Field, show: Field -> string, json: bool) {
    && Plain(f.name, json)
    && (f.kind == Text || f.kind == Constant ==> Plain(f.data, json))
    && (f.kind == Other ==> forall i :: 0 <= i < |show(f)| ==> show(f)[i] !in {',', '|', '=', '"', '\\', '}'})
  }

  // The value of a field.
  function Meant(f: Field, show: Field -> string): string {
    if f.kind == Other then show(f) else f.data
  }

  function Pairs(fs: seq<Field>, show: Field -> string): seq<(string, string)> {
    seq(|fs|, i requires 0 <= i < |fs| => (fs[i].name, Meant(fs[i], show)))
  }

  // ---------- one field ----------

  lemma {:induction false} ReadBare(s: string, tail: string, stops: set<char>)
    requires forall i :: 0 <= i < |s| ==> s[i] !in stops && s[i] != '\\'
    requires tail == "" || tail[0] in stops
    ensures E.ReadTo(s + tail, stops) == (s, tail)
  {
    if s == "" {
      assert s + tail == tail;
    } else {
      assert (s + tail)[1..] == s[1..] + tail;
      ReadBare(s[1..], tail, stops);
      assert s == [s[0]] + s[1..];
    }
  }

  lemma ReadText(s: string, tail: string, json: bool)
    requires Plain(s, json) && (tail == "" || tail[0] in E.Stops(json))
    ensures E.ReadTo(s + tail, E.Stops(json)) == (s, tail)
  {
    E.ReadToEscaped(s, tail, json);
  }

  lemma ReadPlainValue(f: Field, show: Field -> string, tail: string)
    requires Readable(f, show, false) && tail != "" && tail[0] in {',', '|'}
    ensures E.ReadTo(Value(f, show, false) + tail, E.Stops(false)) == (Meant(f, show), tail)
  {
    hide E.ReadTo;
    match f.kind
    case Text => ReadText(f.data, tail, false);
    case Constant => ReadText(f.data, tail, false);
    case Escaped => E.ReadToEscaped(f.data, tail, false);
    case Other => ReadBare(show(f), tail, E.Stops(false));
  }

  lemma ReadJsonValue(f: Field, show: Field -> string, tail: string)
    requires Readable(f, show, true) && tail != "" && tail[0] in {',', '}'}
    ensures ReadValue(Value(f, show, true) + tail) == (Meant(f, show), tail)
  {
    match f.kind
    case Text => ReadQuoted(f.data, f.data, tail);
    case Constant => ReadQuoted(f.data, f.data, tail);
    case Escaped => ReadQuoted(f.data, E.Escaped(f.data, true), tail);
    case Other => ReadBare(show(f), tail, {',', '}'});
  }

  lemma ReadQuoted(s: string, e: string, tail: string)
    requires e == E.Escaped(s, true)
    ensures ReadValue(Quoted(e, true) + tail) == (s, tail)
  {
    hide E.ReadTo;
    E.ReadToEscaped(s, "\"" + tail, true);
    assert (Quoted(e, true) + tail)[1..] == e + ("\"" + tail);
    assert ("\"" + tail)[1..] == tail;
  }

  // ---------- the whole reply ----------

  lemma {:induction false} CommasHead(fs: seq<Field>, show: Field -> string, json: bool)
    requires fs != []
    ensures Commas(fs, show, json)
         == Shown(fs[0], show, json) + if |fs| == 1 then "" else "," + Commas(fs[1..], show, json)
  {
    hide Shown;
    if |fs| == 1 {
      assert Shown(fs[0], show, json) + "" == Shown(fs[0], show, json);
    } else {
      var n := |fs| - 1;
      CommasHead(fs[..n], show, json);
      assert fs[1..][..n - 1] == fs[..n][1..] && fs[1..][n - 1] == fs[n];
    }
  }

  lemma ReadPlainField(f: Field, show: Field -> string, tail: string)
    requires Readable(f, show, false) && tail != "" && tail[0] in {',', '|'}
    ensures ReadPlain(Shown(f, show, false) + tail)
         == [(f.name, Meant(f, show))] + if tail[0] == ',' then ReadPlain(tail[1..]) else []
  {
    hide E.ReadTo;
    var value := Value(f, show, false) + tail;
    var all := Shown(f, show, false) + tail;
    assert all == f.name + ("=" + value);
    ReadText(f.name, "=" + value, false);
    ReadPlainValue(f, show, tail);
    assert ("=" + value)[1..] == value;
    if f.name != "" {
      NoBar(f.name);
    }
  }

  lemma NoBar(s: string)
    requires Plain(s, false) && s != ""
    ensures s[0] != '|'
  {
  }

  lemma JsonShape(f: Field, show: Field -> string, tail: string)
    ensures var all := Shown(f, show, true) + tail;
            all != "" && all[0] == '"' && all[1..] == f.name + ("\":" + (Value(f, show, true) + tail))
  {
    hide Value;
    var value := Value(f, show, true);
    assert Shown(f, show, true) == "\"" + (f.name + ("\":" + value));
  }

  lemma ReadJsonField(f: Field, show: Field -> string, tail: string)
    requires Readable(f, show, true) && tail != "" && tail[0] in {',', '}'}
    ensures ReadJson(Shown(f, show, true) + tail)
         == [(f.name, Meant(f, show))] + if tail[0] == ',' then ReadJson(tail[1..]) else []
  {
    JsonShape(f, show, tail);
    ReadJsonValue(f, show, tail);
    hide E.ReadTo;
    hide ReadValue;
    hide Value;
    hide Shown;
    hide Meant;
    var value := Value(f, show, true) + tail;
    var rest := "\":" + value;
    assert rest[0] == '"' && rest[1] == ':' && rest[2..] == value;
    ReadText(f.name, rest, true);
  }

  lemma FieldIsRead(f: Field, show: Field -> string, json: bool, tail: string)
    requires Readable(f, show, json) && tail != "" && (tail[0] == ',' || tail[0] == if json then '}' else '|')
    ensures ReadFields(Shown(f, show, json) + tail, json)
         == [(f.name, Meant(f, show))] + if tail[0] == ',' then ReadFields(tail[1..], json) else []
  {
    hide ReadJson;
    hide ReadPlain;
    hide Readable;
    hide Shown;
    if json {
      ReadJsonField(f, show, tail);
    } else {
      ReadPlainField(f, show, tail);
    }
  }

  lemma NothingIsRead(show: Field -> string, json: bool)
    ensures ReadFields(Commas([], show, json) + (if json then "}" else "|"), json) == Pairs([], show)
  {
  }

  lemma PairsHead(fs: seq<Field>, show: Field -> string)
    requires fs != []
    ensures Pairs(fs, show) == [(fs[0].name, Meant(fs[0], show))] + Pairs(fs[1..], show)
  {
  }

  // Main result: a client that undoes the escapes reads the names and the values of all fields, in order.
  lemma {:induction false} ReplyIsRead(fs: seq<Field>, show: Field -> string, json: bool)
    requires forall i :: 0 <= i < |fs| ==> Readable(fs[i], show, json)
    ensures ReadFields(Commas(fs, show, json) + (if json then "}" else "|"), json) == Pairs(fs, show)
    decreases |fs|
  {
    hide Readable;
    hide Shown;
    hide ReadFields;
    hide Commas;
    hide Pairs;
    hide Meant;
    var end := if json then "}" else "|";
    NothingIsRead(show, json);
    if fs != [] {
      var text, rest := Shown(fs[0], show, json), fs[1..];
      CommasHead(fs, show, json);
      PairsHead(fs, show);
      if |fs| == 1 {
        assert rest == [] && text + "" == text;
        FieldIsRead(fs[0], show, json, end);
        NoPairs(show);
      } else {
        var tail := "," + (Commas(rest, show, json) + end);
        assert Commas(fs, show, json) + end == text + tail;
        assert tail[1..] == Commas(rest, show, json) + end;
        FieldIsRead(fs[0], show, json, tail);
        ReplyIsRead(rest, show, json);
      }
    }
  }

  lemma NoPairs(show: Field -> string)
    ensures Pairs([], show) == []
  {
  }
}
