/**
 * The header parsers of both implementations, proved to give back the fields of a header block as
 * they were written, whatever follows the block.
 */
module Headers {
  import opened Bytes
  import opened HttpText

  type Headers = map<string, string>

  // ---- Characters ----------------------------------------------------------------------

  /** White space in the sense of Unicode, which is what Rust's `trim` removes. */
  predicate IsSpace(c: char)
  {
    var u := c as int;
    || 9 <= u <= 13 || u == 0x20 || u == 0x85 || u == 0xA0 || u == 0x1680 || 0x2000 <= u <= 0x200A
    || u == 0x2028 || u == 0x2029 || u == 0x202F || u == 0x205F || u == 0x3000
  }

  /** The space characters of ASCII and, as examples of the others, the no-break and the ideographic space. */
  lemma KnownSpaces(c: char)
    ensures c < 0x80 as char ==> (IsSpace(c) <==> c in {'\t', '\n', 0xB as char, 0xC as char, '\r', ' '})
    ensures IsSpace(0xA0 as char) && IsSpace(0x3000 as char) && !IsSpace(0x200B as char)
  {
  }

  function TrimStart(s: string): (r: string)
    ensures r == "" || !IsSpace(r[0])
    ensures r == s <==> s == "" || !IsSpace(s[0])
  {
    if s != "" && IsSpace(s[0]) then TrimStart(s[1..]) else s
  }

  function TrimEnd(s: string): (r: string)
  {
    if s != "" && IsSpace(s[|s| - 1]) then TrimEnd(s[..|s| - 1]) else s
  }

  function Trim(s: string): (r: string)
  {
    TrimEnd(TrimStart(s))
  }

  /** The C++ parser removes spaces only. */
  function TrimSpaces(s: string): (r: string)
  {
    if s != "" && s[0] == ' ' then TrimSpaces(s[1..]) else s
  }

  /** `trim_crlf` */
  function TrimCrLf(s: string): (r: string)
    ensures Clean(s) ==> r == s
  {
    if s != "" && (s[|s| - 1] == '\r' || s[|s| - 1] == '\n') then TrimCrLf(s[..|s| - 1]) else s
  }

  function LowerChar(c: char): (r: char)
  {
    if 'A' <= c <= 'Z' then (c as int + 32) as char else c
  }

  function Lower(s: string): (r: string)
    ensures |r| == |s|
  {
    seq(|s|, i requires 0 <= i < |s| => LowerChar(s[i]))
  }

  // ---- Lines to headers ----------------------------------------------------------------

  /** `split_once(':')` */
  function SplitOnce(line: string): (r: Option<(string, string)>)
  {
    if line == "" then None
    else if line[0] == ':' then Some(("", line[1..]))
    else
      var r := SplitOnce(line[1..]);
      if r.None? then None else Some(([line[0]] + r.value.0, r.value.1))
  }

  function Insert(line: string, m: Headers): (r: Headers)
  {
    var p := SplitOnce(line);
    if p.None? then m else m[Lower(Trim(p.value.0)) := TrimStart(p.value.1)]
  }

  function Collect(lines: seq<string>, m: Headers): (r: Headers)
    decreases |lines|
  {
    if lines == [] || lines[0] == "" then m else Collect(lines[1..], Insert(lines[0], m))
  }

  /** Rust's `parse_http_headers`: the first line, and the fields of the lines up to the first blank one. */
  method ParseHttpHeaders(raw: string) returns (first: string, headers: Headers)
    ensures first == Lines(raw)[0] && headers == Collect(Lines(raw)[1..], map[])
  {
    var lines := Lines(raw);
    first, headers := lines[0], map[];
    var i := 1;
    while i < |lines|
      invariant 1 <= i <= |lines|
      invariant Collect(lines[i..], headers) == Collect(lines[1..], map[])
    {
      var line := lines[i];
      assert lines[i..][1..] == lines[i + 1..];
      if line == "" {
        break;
      }
      var p := SplitOnce(line);
      i := i + 1;
      if p.Some? {
        headers := headers[Lower(Trim(p.value.0)) := TrimStart(p.value.1)];
      }
    }
  }

  // ---- The C++ parser ------------------------------------------------------------------

  /** The lines `getline` yields: split at LF, without a last empty piece. */
  function GetLines(s: string): (ls: seq<string>)
    decreases |s|
  {
    if s == "" then []
    else
      var i := FindLf(s);
      if i.None? then [s] else [s[..i.value]] + GetLines(s[i.value + 1..])
  }

  function FindLf(s: string): (i: Option<nat>)
    ensures i.Some? ==> i.value < |s|
  {
    if s == "" then None
    else if s[0] == '\n' then Some(0)
    else
      var r := FindLf(s[1..]);
      if r.Some? then Some(r.value + 1) else None
  }

  function ChopCr(line: string): (r: string)
  {
    if line != "" && line[|line| - 1] == '\r' then line[..|line| - 1] else line
  }

  function CppInsert(line: string, m: Headers): (r: Headers)
  {
    var p := SplitOnce(line);
    if p.None? then m else m[Lower(TrimCrLf(p.value.0)) := TrimSpaces(TrimCrLf(p.value.1))]
  }

  function CppCollect(lines: seq<string>, m: Headers): (r: Headers)
    decreases |lines|
  {
    if lines == [] || lines[0] == "\r" || lines[0] == "" then m
    else CppCollect(lines[1..], CppInsert(ChopCr(lines[0]), m))
  }

  /** C++ `parse_http_headers`; it fails only on an empty text. */
  method CppParseHttpHeaders(raw: string) returns (ok: bool, first: string, headers: Headers)
    ensures ok <==> raw != ""
    ensures ok ==> first == ChopCr(GetLines(raw)[0]) && headers == CppCollect(GetLines(raw)[1..], map[])
  {
    var lines := GetLines(raw);
    headers := map[];
    if lines == [] {
      return false, "", headers;
    }
    first := ChopCr(lines[0]);
    var i := 1;
    while i < |lines|
      invariant 1 <= i <= |lines|
      invariant CppCollect(lines[i..], headers) == CppCollect(lines[1..], map[])
    {
      var line := lines[i];
      assert lines[i..][1..] == lines[i + 1..];
      if line == "\r" || line == "" {
        break;
      }
      line := ChopCr(line);
      var p := SplitOnce(line);
      i := i + 1;
      if p.Some? {
        headers := headers[Lower(TrimCrLf(p.value.0)) := TrimSpaces(TrimCrLf(p.value.1))];
      }
    }
    ok := true;
  }

  // ---- Parsing back what was written ---------------------------------------------------

  datatype Field = Field(name: string, value: string)

  function FieldLine(f: Field): (line: string)
    ensures line != ""
  {
    f.name + ": " + f.value
  }

  function FieldLines(fs: seq<Field>): (ls: seq<string>)
    ensures |ls| == |fs|
  {
    if fs == [] then [] else [FieldLine(fs[0])] + FieldLines(fs[1..])
  }

  /** A name without separators, line ends or surrounding white space, and a value without line ends. */
  predicate Plain(f: Field)
  {
    ':' !in f.name && Clean(f.name) && Clean(f.value) && Trim(f.name) == f.name
  }

  predicate AllPlain(fs: seq<Field>)
  {
    forall f | f in fs :: Plain(f)
  }

  /** The headers that result from storing the fields in order, each value stripped by the parser's own rule. */
  function Store(fs: seq<Field>, m: Headers, strip: string -> string): (r: Headers)
    decreases |fs|
  {
    if fs == [] then m else Store(fs[1..], m[Lower(fs[0].name) := strip(fs[0].value)], strip)
  }

  lemma {:induction false} SplitField(name: string, value: string)
    requires ':' !in name
    ensures SplitOnce(name + ": " + value) == Some((name, " " + value))
  {
    var line := name + ": " + value;
    if name == "" {
      assert line[0] == ':' && line[1..] == " " + value;
    } else {
      assert line[0] == name[0] && name[0] in name;
      assert line[1..] == name[1..] + ": " + value;
      SplitField(name[1..], value);
      assert [name[0]] + name[1..] == name;
    }
  }

  lemma InsertField(f: Field, m: Headers)
    requires Plain(f)
    ensures Insert(FieldLine(f), m) == m[Lower(f.name) := TrimStart(f.value)]
  {
    SplitField(f.name, f.value);
    var v := " " + f.value;
    assert v[1..] == f.value && IsSpace(v[0]);
    assert TrimStart(v) == TrimStart(f.value);
    hide SplitOnce, TrimStart, Lower, Trim;
  }

  lemma CppInsertField(f: Field, m: Headers)
    requires Plain(f)
    ensures CppInsert(FieldLine(f), m) == m[Lower(f.name) := TrimSpaces(f.value)]
  {
    SplitField(f.name, f.value);
    var v := " " + f.value;
    assert v[1..] == f.value && Clean(v);
    assert TrimSpaces(v) == TrimSpaces(f.value);
    hide SplitOnce, TrimSpaces, Lower, Trim;
  }

  lemma {:induction false} CollectFields(fs: seq<Field>, rest: seq<string>, m: Headers)
    requires AllPlain(fs)
    ensures Collect(FieldLines(fs) + [""] + rest, m) == Store(fs, m, TrimStart)
    decreases |fs|
  {
    hide Plain, Insert, FieldLine;
    var lines := FieldLines(fs) + [""] + rest;
    if fs != [] {
      assert lines[0] == FieldLine(fs[0]) && lines[1..] == FieldLines(fs[1..]) + [""] + rest;
      InsertField(fs[0], m);
      CollectFields(fs[1..], rest, m[Lower(fs[0].name) := TrimStart(fs[0].value)]);
    }
  }

  lemma {:induction false} FieldLinesSolid(fs: seq<Field>)
    requires AllPlain(fs)
    ensures Solid(FieldLines(fs))
  {
    if fs != [] {
      FieldLinesSolid(fs[1..]);
      assert Plain(fs[0]);
      forall l | l in FieldLines(fs) ensures Clean(l) && l != "" {
        if l != FieldLine(fs[0]) {
          assert l in FieldLines(fs[1..]);
        }
      }
    }
  }

  /** The text of a first line and header fields. */
  function Text(first: string, fs: seq<Field>): (s: string)
  {
    Block([first] + FieldLines(fs))
  }

  /** Rust's parser gives back the first line and the fields, whatever was read beyond the block. */
  lemma ParsesBack(first: string, fs: seq<Field>, rest: string)
    requires Clean(first) && AllPlain(fs)
    ensures Lines(Text(first, fs) + rest)[0] == first
    ensures Collect(Lines(Text(first, fs) + rest)[1..], map[]) == Store(fs, map[], TrimStart)
  {
    FieldLinesSolid(fs);
    var ls := [first] + FieldLines(fs);
    LinesOfBlock(ls, rest);
    CollectFields(fs, Lines(rest), map[]);
    assert (ls + [""] + Lines(rest))[1..] == FieldLines(fs) + [""] + Lines(rest);
  }

  // ---- The same for the C++ parser -----------------------------------------------------

  lemma {:induction false} FindLfAfter(line: string, rest: string)
    requires '\n' !in line
    ensures FindLf(line + "\n" + rest) == Some(|line|)
  {
    var s := line + "\n" + rest;
    if line != "" {
      assert s[0] == line[0] && s[0] in line;
      assert s[1..] == line[1..] + "\n" + rest;
      FindLfAfter(line[1..], rest);
    }
  }

  lemma GetLinesCons(line: string, rest: string)
    requires Clean(line)
    ensures GetLines(line + CRLF + rest) == [line + "\r"] + GetLines(rest)
  {
    var s := line + CRLF + rest;
    assert s == (line + "\r") + "\n" + rest;
    FindLfAfter(line + "\r", rest);
    assert s[..|line| + 1] == line + "\r" && s[|line| + 2..] == rest;
  }

  lemma {:induction false} CppCollectFields(fs: seq<Field>, rest: string, m: Headers)
    requires AllPlain(fs)
    ensures CppCollect(GetLines(Block(FieldLines(fs)) + rest), m) == Store(fs, m, TrimSpaces)
    decreases |fs|
  {
    hide Plain, CppInsert, GetLines, ChopCr, Solid;
    if fs == [] {
      assert Block(FieldLines(fs)) + rest == "" + CRLF + rest;
      GetLinesCons("", rest);
    } else {
      var line := FieldLine(fs[0]);
      var ls := FieldLines(fs);
      assert ls[0] == line && ls[1..] == FieldLines(fs[1..]);
      BlockCons(ls, rest);
      hide Block, FieldLines;
      var tail := Block(FieldLines(fs[1..])) + rest;
      FieldLineClean(fs[0]);
      GetLinesCons(line, tail);
      var m' := m[Lower(fs[0].name) := TrimSpaces(fs[0].value)];
      CppInsertField(fs[0], m);
      ChopsCr(line);
      assert CppCollect(GetLines(Block(ls) + rest), m) == CppCollect(GetLines(tail), m') by {
        CppCollectCons(line, GetLines(tail), m);
      }
      CppCollectFields(fs[1..], rest, m');
    }
  }

  lemma CppCollectCons(line: string, later: seq<string>, m: Headers)
    requires line != ""
    ensures CppCollect([line + "\r"] + later, m) == CppCollect(later, CppInsert(ChopCr(line + "\r"), m))
  {
    hide CppInsert;
    var lines := [line + "\r"] + later;
    assert |lines[0]| >= 2 && lines[1..] == later;
  }

  lemma ChopsCr(line: string)
    ensures ChopCr(line + "\r") == line
  {
  }

  lemma FieldLineClean(f: Field)
    requires Plain(f)
    ensures Clean(FieldLine(f))
  {
  }

  /** The C++ parser gives back the first line and the fields, too. */
  lemma CppParsesBack(first: string, fs: seq<Field>, rest: string)
    requires Clean(first) && AllPlain(fs)
    ensures var ls := GetLines(Text(first, fs) + rest);
            ls != [] && ChopCr(ls[0]) == first && CppCollect(ls[1..], map[]) == Store(fs, map[], TrimSpaces)
  {
    var ls := [first] + FieldLines(fs);
    BlockCons(ls, rest);
    assert ls[1..] == FieldLines(fs);
    GetLinesCons(first, Block(FieldLines(fs)) + rest);
    ChopsCr(first);
    CppCollectFields(fs, rest, map[]);
  }

  // ---- Looking up ----------------------------------------------------------------------

  /** A field can be looked up by its lower-case name if no later field has a name of the same length. */
  lemma {:induction false} StoreGet(fs: seq<Field>, m: Headers, strip: string -> string, i: nat)
    requires i < |fs| && forall j | i < j < |fs| :: |fs[j].name| != |fs[i].name|
    ensures Lower(fs[i].name) in Store(fs, m, strip)
    ensures Store(fs, m, strip)[Lower(fs[i].name)] == strip(fs[i].value)
    decreases |fs|
  {
    var m' := m[Lower(fs[0].name) := strip(fs[0].value)];
    if i == 0 {
      StoreKeeps(fs[1..], m', strip, Lower(fs[0].name));
    } else {
      StoreGet(fs[1..], m', strip, i - 1);
    }
  }

  lemma {:induction false} StoreKeeps(fs: seq<Field>, m: Headers, strip: string -> string, key: string)
    requires forall j | 0 <= j < |fs| :: |fs[j].name| != |key|
    ensures key in Store(fs, m, strip) <==> key in m
    ensures key in m ==> Store(fs, m, strip)[key] == m[key]
    decreases |fs|
  {
    if fs != [] {
      StoreKeeps(fs[1..], m[Lower(fs[0].name) := strip(fs[0].value)], strip, key);
    }
  }

  // ---- What the parsers do with any text -----------------------------------------------

  /** `TrimStart` of a suffix is the suffix from its first character that is not white space. */
  lemma {:induction false} TrimStartFrom(s: string, i: nat) returns (k: nat)
    requires i <= |s|
    ensures i <= k <= |s| && TrimStart(s[i..]) == s[k..]
    ensures (forall j | i <= j < k :: IsSpace(s[j])) && (k == |s| || !IsSpace(s[k]))
    decreases |s| - i
  {
    hide IsSpace;
    if i < |s| && IsSpace(s[i]) {
      assert s[i..][1..] == s[i + 1..];
      assert TrimStart(s[i..]) == TrimStart(s[i + 1..]);
      hide TrimStart;
      k := TrimStartFrom(s, i + 1);
    } else {
      k := i;
    }
  }

  /** `TrimEnd` of a prefix is the prefix up to its last character that is not white space. */
  lemma {:induction false} TrimEndTo(s: string, n: nat) returns (k: nat)
    requires n <= |s|
    ensures k <= n && TrimEnd(s[..n]) == s[..k]
    ensures (forall j | k <= j < n :: IsSpace(s[j])) && (k == 0 || !IsSpace(s[k - 1]))
  {
    hide IsSpace;
    if n > 0 && IsSpace(s[n - 1]) {
      assert s[..n][..n - 1] == s[..n - 1];
      assert TrimEnd(s[..n]) == TrimEnd(s[..n - 1]);
      hide TrimEnd;
      k := TrimEndTo(s, n - 1);
    } else {
      k := n;
    }
  }

  /** White space is removed at both ends, all of it and nothing else. */
  lemma TrimMeaning(s: string) returns (i: nat, k: nat)
    ensures i <= k <= |s| && Trim(s) == s[i..k]
    ensures forall j | 0 <= j < |s| && !(i <= j < k) :: IsSpace(s[j])
    ensures i < k ==> !IsSpace(s[i]) && !IsSpace(s[k - 1])
  {
    hide TrimStart, TrimEnd, IsSpace;
    i := TrimStartFrom(s, 0);
    assert s[0..] == s;
    var t := s[i..];
    var m := TrimEndTo(t, |t|);
    assert t[..|t|] == t && t[..m] == s[i..i + m];
    k := i + m;
    forall j | 0 <= j < |s| && !(i <= j < k) ensures IsSpace(s[j]) {
      assert j >= i ==> s[j] == t[j - i];
    }
  }

  lemma {:induction false} TrimSpacesFrom(s: string, i: nat) returns (k: nat)
    requires i <= |s|
    ensures i <= k <= |s| && TrimSpaces(s[i..]) == s[k..]
    ensures (forall j | i <= j < k :: s[j] == ' ') && (k == |s| || s[k] != ' ')
    decreases |s| - i
  {
    if i < |s| && s[i] == ' ' {
      assert s[i..][1..] == s[i + 1..];
      assert TrimSpaces(s[i..]) == TrimSpaces(s[i + 1..]);
      hide TrimSpaces;
      k := TrimSpacesFrom(s, i + 1);
    } else {
      k := i;
    }
  }

  /** The C++ parser removes leading spaces, all of them and nothing else. */
  lemma TrimSpacesMeaning(s: string) returns (k: nat)
    ensures k <= |s| && TrimSpaces(s) == s[k..] && forall j | 0 <= j < k :: s[j] == ' '
    ensures k == |s| || s[k] != ' '
  {
    hide TrimSpaces;
    k := TrimSpacesFrom(s, 0);
    assert s[0..] == s;
  }

  /** Every line followed by LF. */
  function Ended(ls: seq<string>): (s: string)
  {
    if ls == [] then "" else ls[0] + "\n" + Ended(ls[1..])
  }

  lemma EndedFirst(line: string, ls: seq<string>)
    ensures Ended([line] + ls) == line + "\n" + Ended(ls)
  {
    assert ([line] + ls)[1..] == ls;
  }

  lemma {:induction false} FindLfMeaning(s: string)
    ensures FindLf(s).None? <==> '\n' !in s
    ensures FindLf(s).Some? ==> s[FindLf(s).value] == '\n' && '\n' !in s[..FindLf(s).value]
  {
    if s != "" && s[0] != '\n' {
      FindLfMeaning(s[1..]);
      assert s == [s[0]] + s[1..];
      if FindLf(s[1..]).Some? {
        var i := FindLf(s[1..]).value;
        assert s[..i + 1] == [s[0]] + s[1..][..i];
      }
    }
  }

  /** The text with an LF at its end. */
  function WithLf(s: string): (r: string)
  {
    if s == "" || s[|s| - 1] == '\n' then s else s + "\n"
  }

  lemma CutAt(s: string, i: nat)
    requires i < |s| && s[i] == '\n'
    ensures s == s[..i] + "\n" + s[i + 1..]
  {
  }

  lemma WithLfAfter(line: string, rest: string)
    ensures WithLf(line + "\n" + rest) == line + "\n" + WithLf(rest)
  {
    var s := line + "\n" + rest;
    assert rest != "" ==> s[|s| - 1] == rest[|rest| - 1];
    assert rest == "" ==> s == line + "\n";
  }

  /** `getline` on any text: the pieces hold no LF, and with an LF after each they are the text, ended by one. */
  lemma {:induction false} GetLinesMeaning(s: string)
    ensures Ended(GetLines(s)) == WithLf(s)
    ensures forall l | l in GetLines(s) :: '\n' !in l
    decreases |s|
  {
    hide GetLines, FindLf, WithLf, Ended;
    if s == "" {
      NoLines();
    } else {
      var i := FindLf(s);
      FindLfMeaning(s);
      GetLinesStep(s);
      if i.None? {
        LastLine(s);
      } else {
        var line, rest := s[..i.value], s[i.value + 1..];
        GetLinesMeaning(rest);
        CutAt(s, i.value);
        EndedFirst(line, GetLines(rest));
        WithLfAfter(line, rest);
      }
    }
  }

  lemma NoLines()
    ensures GetLines("") == [] && Ended([]) == "" && WithLf("") == ""
  {
  }

  lemma GetLinesStep(s: string)
    requires s != ""
    ensures var i := FindLf(s);
            GetLines(s) == if i.None? then [s] else [s[..i.value]] + GetLines(s[i.value + 1..])
  {
    hide FindLf;
  }

  lemma LastLine(s: string)
    requires s != "" && '\n' !in s
    ensures Ended([s]) == WithLf(s)
  {
    EndedFirst(s, []);
    assert [s] + [] == [s];
  }

  /** The name before the first colon and what follows it. */
  lemma {:induction false} SplitMeaning(line: string, name: string, value: string)
    ensures SplitOnce(line) == Some((name, value)) <==> ':' !in name && line == name + ":" + value
    ensures SplitOnce(line) == None <==> ':' !in line
    decreases |line|
  {
    if line != "" && line[0] != ':' {
      var tail := line[1..];
      assert line == [line[0]] + tail;
      if name != "" {
        SplitMeaning(tail, name[1..], value);
        assert name == [name[0]] + name[1..];
        if line == name + ":" + value {
          assert tail == name[1..] + ":" + value && line[0] == name[0];
        }
        if name[0] == line[0] && tail == name[1..] + ":" + value {
          assert line == name + ":" + value;
        }
      } else {
        SplitMeaning(tail, name, value);
        assert ("" + ":" + value)[0] == ':';
      }
    } else if line != "" {
      assert line == "" + ":" + line[1..];
      if line == name + ":" + value && name != "" {
        assert name[0] == line[0] && name[0] in name;
      }
      if ':' !in name && line == name + ":" + value {
        assert name == "" && line[1..] == value;
      }
    }
  }

  /** The header a line sets in the Rust parser. */
  function FieldOf(line: string): (f: Option<(string, string)>)
  {
    var p := SplitOnce(line);
    if p.None? then None else Some((Lower(Trim(p.value.0)), TrimStart(p.value.1)))
  }

  /** And in the C++ parser, where it still has its CR. */
  function CppFieldOf(line: string): (f: Option<(string, string)>)
  {
    var p := SplitOnce(ChopCr(line));
    if p.None? then None else Some((Lower(TrimCrLf(p.value.0)), TrimSpaces(TrimCrLf(p.value.1))))
  }

  predicate Blank(line: string)
  {
    line == ""
  }

  predicate CppBlank(line: string)
  {
    line == "" || line == "\r"
  }

  /** Number of lines before the first blank one. */
  function BeforeBlank(lines: seq<string>, blank: string -> bool): (n: nat)
    ensures n <= |lines| && (forall i | 0 <= i < n :: !blank(lines[i])) && (n < |lines| ==> blank(lines[n]))
  {
    if lines == [] || blank(lines[0]) then 0 else 1 + BeforeBlank(lines[1..], blank)
  }

  /** The last of the first `n` lines that sets `key`, or -1. */
  function LastSetting(lines: seq<string>, n: nat, field: string -> Option<(string, string)>, key: string): (i: int)
    requires n <= |lines|
    ensures -1 <= i < n && (i >= 0 ==> field(lines[i]).Some? && field(lines[i]).value.0 == key)
    ensures forall j | i < j < n :: field(lines[j]).None? || field(lines[j]).value.0 != key
  {
    if n == 0 then -1
    else if field(lines[n - 1]).Some? && field(lines[n - 1]).value.0 == key then n - 1
    else LastSetting(lines, n - 1, field, key)
  }

  /** Line by line, up to the first blank one, each field replacing an earlier one of the same name. */
  function Gather(lines: seq<string>, m: Headers, blank: string -> bool, field: string -> Option<(string, string)>)
    : (r: Headers)
    decreases |lines|
  {
    if lines == [] || blank(lines[0]) then m
    else
      var f := field(lines[0]);
      Gather(lines[1..], if f.None? then m else m[f.value.0 := f.value.1], blank, field)
  }

  lemma {:induction false} CollectGathers(lines: seq<string>, m: Headers)
    ensures Collect(lines, m) == Gather(lines, m, Blank, FieldOf)
    decreases |lines|
  {
    hide SplitOnce, Lower, Trim, TrimStart;
    if lines != [] && lines[0] != "" {
      CollectGathers(lines[1..], Insert(lines[0], m));
    }
  }

  lemma {:induction false} CppCollectGathers(lines: seq<string>, m: Headers)
    ensures CppCollect(lines, m) == Gather(lines, m, CppBlank, CppFieldOf)
    decreases |lines|
  {
    hide SplitOnce, Lower, TrimCrLf, TrimSpaces, ChopCr;
    if lines != [] && !CppBlank(lines[0]) {
      CppCollectGathers(lines[1..], CppInsert(ChopCr(lines[0]), m));
    }
  }

  /** Appending a line that is before the first blank one. */
  lemma {:induction false} GatherLast(lines: seq<string>, m: Headers, blank: string -> bool,
                                      field: string -> Option<(string, string)>, n: nat)
    requires n < |lines| && forall i | 0 <= i <= n :: !blank(lines[i])
    ensures var (before, f) := (Gather(lines[..n], m, blank, field), field(lines[n]));
            Gather(lines[..n + 1], m, blank, field) == if f.None? then before else before[f.value.0 := f.value.1]
    decreases n
  {
    if n == 0 {
      assert lines[..0] == [] && lines[..1][1..] == [];
    } else {
      var f := field(lines[0]);
      GatherLast(lines[1..], if f.None? then m else m[f.value.0 := f.value.1], blank, field, n - 1);
      assert lines[..n][1..] == lines[1..][..n - 1] && lines[..n + 1][1..] == lines[1..][..n];
    }
  }

  lemma {:induction false} GatherStops(lines: seq<string>, m: Headers, blank: string -> bool,
                                       field: string -> Option<(string, string)>)
    ensures Gather(lines, m, blank, field) == Gather(lines[..BeforeBlank(lines, blank)], m, blank, field)
    decreases |lines|
  {
    if lines != [] && !blank(lines[0]) {
      var f, n := field(lines[0]), BeforeBlank(lines, blank);
      GatherStops(lines[1..], if f.None? then m else m[f.value.0 := f.value.1], blank, field);
      assert lines[..n][1..] == lines[1..][..n - 1];
    }
  }

  /** A header has the value of the last line that sets it, among the first `n`. */
  lemma {:induction false} GatherLookup(lines: seq<string>, blank: string -> bool,
                                        field: string -> Option<(string, string)>, n: nat, key: string)
    requires n <= |lines| && forall i | 0 <= i < n :: !blank(lines[i])
    ensures var (h, i) := (Gather(lines[..n], map[], blank, field), LastSetting(lines, n, field, key));
            (key in h <==> i >= 0) && (key in h ==> h[key] == field(lines[i]).value.1)
    decreases n
  {
    if n == 0 {
      assert lines[..0] == [];
    } else {
      GatherLookup(lines, blank, field, n - 1, key);
      GatherLast(lines, map[], blank, field, n - 1);
    }
  }

  /**
   * What the Rust parser finds in any text: a header has the value of the last line before the first blank
   * one that sets it, and no other header is there.
   */
  lemma ParsedMeaning(raw: string, key: string)
    ensures var (h, lines) := (Collect(Lines(raw)[1..], map[]), Lines(raw)[1..]);
            var i := LastSetting(lines, BeforeBlank(lines, Blank), FieldOf, key);
            (key in h <==> i >= 0) && (key in h ==> h[key] == FieldOf(lines[i]).value.1)
  {
    hide FieldOf;
    var lines := Lines(raw)[1..];
    CollectGathers(lines, map[]);
    GatherStops(lines, map[], Blank, FieldOf);
    GatherLookup(lines, Blank, FieldOf, BeforeBlank(lines, Blank), key);
  }

  /** The same for the C++ parser. */
  lemma CppParsedMeaning(raw: string, key: string)
    requires GetLines(raw) != []
    ensures var (h, lines) := (CppCollect(GetLines(raw)[1..], map[]), GetLines(raw)[1..]);
            var i := LastSetting(lines, BeforeBlank(lines, CppBlank), CppFieldOf, key);
            (key in h <==> i >= 0) && (key in h ==> h[key] == CppFieldOf(lines[i]).value.1)
  {
    hide CppFieldOf;
    var lines := GetLines(raw)[1..];
    CppCollectGathers(lines, map[]);
    GatherStops(lines, map[], CppBlank, CppFieldOf);
    GatherLookup(lines, CppBlank, CppFieldOf, BeforeBlank(lines, CppBlank), key);
  }

  /** The field of a line with a colon: the trimmed lower-case name, and the value without leading white space. */
  lemma FieldMeaning(name: string, value: string)
    requires ':' !in name
    ensures FieldOf(name + ":" + value) == Some((Lower(Trim(name)), TrimStart(value)))
    ensures Clean(name) && Clean(value) ==>
              CppFieldOf(name + ":" + value + "\r") == Some((Lower(name), TrimSpaces(value)))
  {
    hide Lower, Trim, TrimStart, TrimSpaces;
    SplitMeaning(name + ":" + value, name, value);
    ChopsCr(name + ":" + value);
  }
}
