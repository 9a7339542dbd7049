/** Canonical JSON: the emitter, a reader of what it emits, and the round trip between them.

    A character stands for one byte. `Numeric` is the test the emitter puts to a number literal, that it
    parses as an int64 or a float64; all that is used of it is that such a literal is a plain word.
 */
module CanonicalJson {
  import opened Ordering
  import opened Seqs
  import opened Wrappers

  datatype Json =
    | Null
    | Bool(b: bool)
    | Number(literal: string)
    | Str(s: string)
    | Arr(items: seq<Json>)
    | Obj(fields: map<string, Json>)

  type Numeric = string -> bool

  predicate IsWordChar(c: char) {
    'a' <= c <= 'z' || 'A' <= c <= 'Z' || '0' <= c <= '9' || c == '.' || c == '_' || c == '-' || c == '+'
  }

  predicate IsPlainWord(s: string) {
    s != "" && (forall i :: 0 <= i < |s| ==> IsWordChar(s[i])) && s !in {"null", "true", "false"}
  }

  /** Every literal accepted as a number is a plain word. */
  ghost predicate Plain(numeric: Numeric) {
    forall s :: numeric(s) ==> IsPlainWord(s)
  }

  // ---- Strings ----------------------------------------------------------------------------

  function Hex(d: int): (c: char)
    requires 0 <= d < 16
  {
    if d < 10 then '0' + d as char else 'a' + (d - 10) as char
  }

  function HexValue(c: char): (d: int)
    ensures -1 <= d < 16
  {
    if '0' <= c <= '9' then c as int - '0' as int
    else if 'a' <= c <= 'f' then c as int - 'a' as int + 10
    else -1
  }

  /** The minimal escapes: the quote, the backslash and the C0 controls. */
  function Escape(c: char): string {
    if c == '\"' then ['\\', '\"']
    else if c == '\\' then ['\\', '\\']
    else if c == '\n' then ['\\', 'n']
    else if c == '\r' then ['\\', 'r']
    else if c == '\t' then ['\\', 't']
    else if c == 8 as char then ['\\', 'b']
    else if c == 12 as char then ['\\', 'f']
    else if c < 0x20 as char then ['\\', 'u', '0', '0', Hex(c as int / 16), Hex(c as int % 16)]
    else [c]
  }

  /** The escapes, by code: the quote, the backslash, five controls by letter, the other controls by two
      hexadecimal digits in lower case, and every other character as itself. */
  lemma EscapesExactly(c: char)
    ensures var n := c as int;
      Escape(c) ==
        if n == 0x22 then "\\\""
        else if n == 0x5c then "\\\\"
        else if n == 0x0a then "\\n"
        else if n == 0x0d then "\\r"
        else if n == 0x09 then "\\t"
        else if n == 0x08 then "\\b"
        else if n == 0x0c then "\\f"
        else if n >= 0x20 then [c]
        else "\\u00" + [if n >= 16 then '1' else '0'] + ["0123456789abcdef"[n % 16]]
  {
  }

  /** The numerals of JSON are plain words: digits, signs, a point and an exponent. */
  lemma NumeralsArePlain(s: string)
    requires s != "" && forall i :: 0 <= i < |s| ==> s[i] in "0123456789+-.eE"
    ensures IsPlainWord(s)
  {
    assert s[0] in "0123456789+-.eE" && s[0] != 'n' && s[0] != 't' && s[0] != 'f';
    assert "null"[0] == 'n' && "true"[0] == 't' && "false"[0] == 'f';
  }

  function Escaped(s: string): string {
    if s == "" then "" else Escape(s[0]) + Escaped(s[1..])
  }

  function Quote(s: string): string {
    ['\"'] + Escaped(s) + ['\"']
  }

  lemma EscapedFrom(s: string, i: nat)
    requires i < |s|
    ensures Escaped(s[i..]) == Escape(s[i]) + Escaped(s[i + 1..])
  {
    assert s[i..][1..] == s[i + 1..];
  }

  method AppendString(dst: string, s: string) returns (out: string)
    ensures out == dst + Quote(s)
  {
    out := dst + ['\"'];
    assert s[0..] == s;
    for i := 0 to |s|
      invariant out + Escaped(s[i..]) == dst + ['\"'] + Escaped(s)
    {
      EscapedFrom(s, i);
      Regroup(out, Escape(s[i]), Escaped(s[i + 1..]));
      out := out + Escape(s[i]);
    }
    assert s[|s|..] == "" && out + "" == out;
    out := out + ['\"'];
    Regroup(dst, ['\"'], Escaped(s));
    Regroup(dst, ['\"'] + Escaped(s), ['\"']);
  }

  datatype Read<T> = Fail | Got(value: T, rest: string)

  /** One character of a quoted string. */
  function ReadChar(s: string): (r: Read<char>)
    ensures r.Got? ==> |r.rest| < |s|
  {
    if s == "" || s[0] == '\"' || s[0] < 0x20 as char then Fail
    else if s[0] != '\\' then Got(s[0], s[1..])
    else if |s| < 2 then Fail
    else
      match s[1]
      case '\"' => Got('\"', s[2..])
      case '\\' => Got('\\', s[2..])
      case 'n' => Got('\n', s[2..])
      case 'r' => Got('\r', s[2..])
      case 't' => Got('\t', s[2..])
      case 'b' => Got(8 as char, s[2..])
      case 'f' => Got(12 as char, s[2..])
      case 'u' =>
        if |s| >= 6 && s[2] == '0' && s[3] == '0' && HexValue(s[4]) >= 0 && HexValue(s[5]) >= 0
        then Got((HexValue(s[4]) * 16 + HexValue(s[5])) as char, s[6..]) else Fail
      case _ => Fail
  }

  /** The rest of a string whose opening quote was read. */
  function ReadString(s: string): (r: Read<string>)
    ensures r.Got? ==> |r.rest| < |s|
    decreases |s|
  {
    if s != "" && s[0] == '\"' then Got("", s[1..])
    else
      match ReadChar(s)
      case Fail => Fail
      case Got(c, after) =>
        match ReadString(after)
        case Fail => Fail
        case Got(cs, rest) => Got([c] + cs, rest)
  }

  lemma EscapeReadsBack(c: char, t: string)
    ensures ReadChar(Escape(c) + t) == Got(c, t) && Escape(c)[0] != '\"'
  {
    var e := Escape(c);
    assert (e + t)[|e|..] == t;
    if c < 0x20 as char {
      assert HexValue(Hex(c as int / 16)) == c as int / 16;
      assert HexValue(Hex(c as int % 16)) == c as int % 16;
    }
  }

  lemma ReadStringNext(c: char, t: string, cs: string, rest: string)
    requires ReadString(t) == Got(cs, rest)
    ensures ReadString(Escape(c) + t) == Got([c] + cs, rest)
  {
    EscapeReadsBack(c, t);
    assert (Escape(c) + t)[0] == Escape(c)[0];
  }

  /** Every string comes back from its quoted form, whatever follows it. */
  lemma {:induction false} StringReadsBack(s: string, rest: string)
    ensures ReadString(Escaped(s) + ['\"'] + rest) == Got(s, rest)
  {
    if s == "" {
      assert Escaped(s) + ['\"'] + rest == ['\"'] + rest;
      assert (['\"'] + rest)[1..] == rest;
    } else {
      var t := Escaped(s[1..]) + ['\"'] + rest;
      RegroupFour(Escape(s[0]), Escaped(s[1..]), ['\"'], rest);
      StringReadsBack(s[1..], rest);
      ReadStringNext(s[0], t, s[1..], rest);
      assert s == [s[0]] + s[1..];
    }
  }

  // ---- The emitter ------------------------------------------------------------------------

  ghost function SortedFields(m: map<string, Json>): (ks: seq<string>)
    ensures forall k :: k in ks <==> k in m
    ensures forall i, j :: 0 <= i < j < |ks| ==> ks[i] != ks[j]
  {
    StrLessTotal();
    Sorted(m.Keys, StrLess)
  }

  ghost function Emit(v: Json): string
    decreases v, 1, 0
  {
    match v
    case Null => "null"
    case Bool(b) => if b then "true" else "false"
    case Number(literal) => literal
    case Str(s) => Quote(s)
    case Arr(items) => ['['] + EmitItems(items) + [']']
    case Obj(fields) => ['{'] + EmitFields(v, SortedFields(fields)) + ['}']
  }

  /** The elements, a comma before each but the first. */
  ghost function EmitItems(items: seq<Json>): string
    decreases items, 1, 0
  {
    if items == [] then ""
    else Emit(items[0]) + Continued(items)
  }

  ghost function Continued(items: seq<Json>): string
    requires items != []
    decreases items, 0, 0
  {
    if |items| == 1 then "" else [','] + EmitItems(items[1..])
  }

  ghost function EmitFields(v: Json, ks: seq<string>): string
    requires v.Obj? && forall k :: k in ks ==> k in v.fields
    decreases v, 0, |ks|
  {
    if ks == [] then ""
    else
      assert ks[0] in ks;
      Field(ks[0], Emit(v.fields[ks[0]])) + (if |ks| == 1 then "" else [','] + EmitFields(v, ks[1..]))
  }

  function Field(k: string, value: string): string {
    Quote(k) + [':'] + value
  }

  /** Every number literal passes the emitter's test. */
  ghost predicate Emittable(v: Json, numeric: Numeric) {
    match v
    case Number(literal) => numeric(literal)
    case Arr(items) => forall i :: 0 <= i < |items| ==> Emittable(items[i], numeric)
    case Obj(fields) => forall k :: k in fields ==> Emittable(fields[k], numeric)
    case _ => true
  }

  /** Somewhere in the tree stands a number the test refuses. */
  ghost predicate HoldsRefused(v: Json, numeric: Numeric) {
    match v
    case Number(literal) => !numeric(literal)
    case Arr(items) => exists i :: 0 <= i < |items| && HoldsRefused(items[i], numeric)
    case Obj(fields) => exists k :: k in fields && HoldsRefused(fields[k], numeric)
    case _ => false
  }

  lemma {:induction false} EmittableExactly(v: Json, numeric: Numeric)
    ensures Emittable(v, numeric) <==> !HoldsRefused(v, numeric)
    decreases v
  {
    match v
    case Arr(items) =>
      forall i | 0 <= i < |items| ensures Emittable(items[i], numeric) <==> !HoldsRefused(items[i], numeric) {
        EmittableExactly(items[i], numeric);
      }
    case Obj(fields) =>
      forall k | k in fields ensures Emittable(fields[k], numeric) <==> !HoldsRefused(fields[k], numeric) {
        EmittableExactly(fields[k], numeric);
      }
    case _ =>
  }

  // ---- The reader -------------------------------------------------------------------------

  function WordEnd(s: string, i: nat): (e: nat)
    requires i <= |s|
    ensures i <= e <= |s|
    decreases |s| - i
  {
    if i < |s| && IsWordChar(s[i]) then WordEnd(s, i + 1) else i
  }

  function WordValue(w: string): Json {
    if w == "null" then Null else if w == "true" then Bool(true) else if w == "false" then Bool(false) else Number(w)
  }

  function ReadValue(s: string): (r: Read<Json>)
    ensures r.Got? ==> |r.rest| < |s|
    decreases |s|, 1
  {
    if s == "" then Fail
    else if s[0] == '\"' then
      match ReadString(s[1..])
      case Fail => Fail
      case Got(t, rest) => Got(Str(t), rest)
    else if s[0] == '[' then
      if |s| > 1 && s[1] == ']' then Got(Arr([]), s[2..])
      else
        match ReadItems(s[1..])
        case Fail => Fail
        case Got(items, rest) => Got(Arr(items), rest)
    else if s[0] == '{' then
      if |s| > 1 && s[1] == '}' then Got(Obj(map[]), s[2..])
      else
        match ReadFields(s[1..])
        case Fail => Fail
        case Got(fields, rest) => Got(Obj(fields), rest)
    else
      var e := WordEnd(s, 0);
      if e == 0 then Fail else Got(WordValue(s[..e]), s[e..])
  }

  /** One element or more, up to the closing bracket. */
  function ReadItems(s: string): (r: Read<seq<Json>>)
    ensures r.Got? ==> |r.rest| < |s|
    decreases |s|, 2
  {
    match ReadValue(s)
    case Fail => Fail
    case Got(v, after) =>
      if after == "" then Fail
      else if after[0] == ']' then Got([v], after[1..])
      else if after[0] != ',' then Fail
      else
        match ReadItems(after[1..])
        case Fail => Fail
        case Got(vs, rest) => Got([v] + vs, rest)
  }

  function ReadField(s: string): (r: Read<(string, Json)>)
    ensures r.Got? ==> |r.rest| < |s|
    decreases |s|, 2
  {
    if s == "" || s[0] != '\"' then Fail
    else
      match ReadString(s[1..])
      case Fail => Fail
      case Got(k, after) =>
        if after == "" || after[0] != ':' then Fail
        else
          match ReadValue(after[1..])
          case Fail => Fail
          case Got(v, rest) => Got((k, v), rest)
  }

  /** One field or more, up to the closing brace; of two fields with one name the later wins. */
  function ReadFields(s: string): (r: Read<map<string, Json>>)
    ensures r.Got? ==> |r.rest| < |s|
    decreases |s|, 3
  {
    match ReadField(s)
    case Fail => Fail
    case Got(kv, after) =>
      if after == "" then Fail
      else if after[0] == '}' then Got(map[kv.0 := kv.1], after[1..])
      else if after[0] != ',' then Fail
      else
        match ReadFields(after[1..])
        case Fail => Fail
        case Got(m, rest) => Got(if kv.0 in m then m else m[kv.0 := kv.1], rest)
  }

  lemma ReadItemsLast(s: string, v: Json, rest: string)
    requires ReadValue(s) == Got(v, [']'] + rest)
    ensures ReadItems(s) == Got([v], rest)
  {
    assert ([']'] + rest)[1..] == rest;
  }

  lemma ReadItemsMore(s: string, v: Json, more: string, vs: seq<Json>, rest: string)
    requires ReadValue(s) == Got(v, [','] + more) && ReadItems(more) == Got(vs, rest)
    ensures ReadItems(s) == Got([v] + vs, rest)
  {
    assert ([','] + more)[1..] == more;
  }

  lemma ReadFieldsLast(s: string, k: string, v: Json, rest: string)
    requires ReadField(s) == Got((k, v), ['}'] + rest)
    ensures ReadFields(s) == Got(map[k := v], rest)
  {
    assert (['}'] + rest)[1..] == rest;
  }

  lemma ReadFieldsMore(s: string, k: string, v: Json, more: string, m: map<string, Json>, rest: string)
    requires ReadField(s) == Got((k, v), [','] + more) && ReadFields(more) == Got(m, rest) && k !in m
    ensures ReadFields(s) == Got(m[k := v], rest)
  {
    assert ([','] + more)[1..] == more;
  }

  lemma ReadObject(t: string, m: map<string, Json>, rest: string)
    requires ReadFields(t) == Got(m, rest) && t != "" && t[0] == '\"'
    ensures ReadValue(['{'] + t) == Got(Obj(m), rest)
  {
    assert (['{'] + t)[1..] == t;
  }

  // ---- The round trip ---------------------------------------------------------------------

  predicate Ends(rest: string) {
    rest == "" || !IsWordChar(rest[0])
  }

  lemma {:induction false} WordStops(w: string, rest: string, i: nat)
    requires i <= |w| && Ends(rest) && forall j :: 0 <= j < |w| ==> IsWordChar(w[j])
    ensures WordEnd(w + rest, i) == |w|
    decreases |w| - i
  {
    if i < |w| { WordStops(w, rest, i + 1); }
  }

  lemma WordReadsBack(w: string, rest: string)
    requires w != "" && Ends(rest) && forall j :: 0 <= j < |w| ==> IsWordChar(w[j])
    ensures ReadValue(w + rest) == Got(WordValue(w), rest)
  {
    WordStops(w, rest, 0);
    assert (w + rest)[0] == w[0];
    assert (w + rest)[..|w|] == w && (w + rest)[|w|..] == rest;
  }

  /** An emitted value opens with the character that tells the reader what it is. */
  lemma EmitOpens(v: Json, numeric: Numeric)
    requires Plain(numeric) && Emittable(v, numeric)
    ensures Emit(v) != "" && Emit(v)[0] != ']' && Emit(v)[0] != '}'
  {
    if v.Number? { assert IsPlainWord(v.literal); }
  }

  /** Whatever tree was emitted, and whatever follows it, the reader finds the tree. */
  lemma {:induction false} ReadsBack(v: Json, rest: string, numeric: Numeric)
    requires Plain(numeric) && Emittable(v, numeric) && Ends(rest)
    ensures ReadValue(Emit(v) + rest) == Got(v, rest)
    decreases v, 2
  {
    match v
    case Null => WordReadsBack("null", rest);
    case Bool(b) => WordReadsBack(if b then "true" else "false", rest);
    case Number(literal) =>
      assert IsPlainWord(literal);
      WordReadsBack(literal, rest);
    case Str(s) => QuoteReadsBack(s, rest);
    case Arr(items) => ArrayReadsBack(v, rest, numeric);
    case Obj(fields) => ObjectReadsBack(v, rest, numeric);
  }

  lemma QuoteReadsBack(s: string, rest: string)
    ensures ReadValue(Quote(s) + rest) == Got(Str(s), rest)
  {
    var t := Escaped(s) + ['\"'] + rest;
    assert Quote(s) + rest == ['\"'] + t;
    assert (['\"'] + t)[1..] == t;
    StringReadsBack(s, rest);
  }

  lemma {:induction false} ArrayReadsBack(v: Json, rest: string, numeric: Numeric)
    requires Plain(numeric) && v.Arr? && Emittable(v, numeric)
    ensures ReadValue(Emit(v) + rest) == Got(v, rest)
    decreases v, 1
  {
    var t := EmitItems(v.items) + [']'] + rest;
    assert Emit(v) + rest == ['['] + t;
    assert (['['] + t)[1..] == t;
    if v.items == [] {
      assert t == [']'] + rest;
      assert (['['] + t)[2..] == rest;
    } else {
      EmitOpens(v.items[0], numeric);
      assert t[0] == Emit(v.items[0])[0];
      ItemsReadBack(v.items, rest, numeric);
    }
  }

  lemma {:induction false} ItemsReadBack(items: seq<Json>, rest: string, numeric: Numeric)
    requires Plain(numeric) && items != [] && forall i :: 0 <= i < |items| ==> Emittable(items[i], numeric)
    ensures ReadItems(EmitItems(items) + [']'] + rest) == Got(items, rest)
    decreases items, 1, 0
  {
    var v := items[0];
    var after := Continued(items) + [']'] + rest;
    RegroupFour(Emit(v), Continued(items), [']'], rest);
    ReadsBack(v, after, numeric);
    if |items| == 1 {
      assert after == [']'] + rest;
      ReadItemsLast(Emit(v) + after, v, rest);
      assert items == [v];
    } else {
      var more := EmitItems(items[1..]) + [']'] + rest;
      RegroupFour([','], EmitItems(items[1..]), [']'], rest);
      ItemsReadBack(items[1..], rest, numeric);
      ReadItemsMore(Emit(v) + after, v, more, items[1..], rest);
      assert items == [v] + items[1..];
    }
  }

  lemma {:induction false} ObjectReadsBack(v: Json, rest: string, numeric: Numeric)
    requires Plain(numeric) && v.Obj? && Emittable(v, numeric)
    ensures ReadValue(Emit(v) + rest) == Got(v, rest)
    decreases v, 1
  {
    var ks := SortedFields(v.fields);
    var t := EmitFields(v, ks) + ['}'] + rest;
    RegroupFour(['{'], EmitFields(v, ks), ['}'], rest);
    NonemptyHasMember(ks);
    if ks == [] {
      assert v.fields == map[];
      assert t == ['}'] + rest;
      assert (['{'] + t)[2..] == rest;
    } else {
      FieldsReadBack(v, ks, rest, numeric);
      FieldsOpen(v, ks, rest);
      assert Only(v, ks) == v.fields;
      ReadObject(t, v.fields, rest);
    }
  }

  lemma FieldsOpen(v: Json, ks: seq<string>, rest: string)
    requires v.Obj? && ks != [] && forall k :: k in ks ==> k in v.fields
    ensures var t := EmitFields(v, ks) + ['}'] + rest; t != "" && t[0] == '\"'
  {
    assert ks[0] in ks;
    assert Quote(ks[0])[0] == '\"';
  }

  /** The fields of v named in ks. */
  function Only(v: Json, ks: seq<string>): map<string, Json>
    requires v.Obj? && forall k :: k in ks ==> k in v.fields
  {
    map k | k in ks :: v.fields[k]
  }

  lemma {:induction false} FieldReadsBack(v: Json, k: string, after: string, numeric: Numeric)
    requires Plain(numeric) && v.Obj? && Emittable(v, numeric) && k in v.fields && Ends(after)
    ensures ReadField(Field(k, Emit(v.fields[k])) + after) == Got((k, v.fields[k]), after)
    decreases v, 0, 0
  {
    var w := v.fields[k];
    FieldStarts(k, Emit(w), after);
    StringReadsBack(k, [':'] + (Emit(w) + after));
    ReadsBack(w, after, numeric);
    FieldReads(Escaped(k) + ['\"'] + ([':'] + (Emit(w) + after)), k, Emit(w) + after, w, after);
  }

  lemma FieldStarts(k: string, value: string, after: string)
    ensures Field(k, value) + after == ['\"'] + (Escaped(k) + ['\"'] + ([':'] + (value + after)))
  {
    Regroup(Quote(k), [':'], value);
    RegroupFour(Quote(k), [':'], value, after);
    Regroup([':'], value, after);
    RegroupFour(['\"'], Escaped(k), ['\"'], [':'] + (value + after));
  }

  lemma FieldReads(q: string, k: string, text: string, w: Json, after: string)
    requires ReadString(q) == Got(k, [':'] + text) && ReadValue(text) == Got(w, after)
    ensures ReadField(['\"'] + q) == Got((k, w), after)
  {
    TailOf('\"', q);
    TailOf(':', text);
  }

  lemma {:induction false} FieldsReadBack(v: Json, ks: seq<string>, rest: string, numeric: Numeric)
    requires Plain(numeric) && v.Obj? && Emittable(v, numeric)
    requires ks != [] && (forall k :: k in ks ==> k in v.fields) && forall i, j :: 0 <= i < j < |ks| ==> ks[i] != ks[j]
    ensures ReadFields(EmitFields(v, ks) + ['}'] + rest) == Got(Only(v, ks), rest)
    decreases v, 0, |ks|
  {
    var k := ks[0];
    assert k in ks;
    var w := v.fields[k];
    if |ks| == 1 {
      FieldReadsBack(v, k, ['}'] + rest, numeric);
      LastFieldReads(Field(k, Emit(w)), k, w, rest);
      OnlySplits(v, ks);
    } else {
      var others := EmitFields(v, ks[1..]);
      FieldReadsBack(v, k, [','] + (others + ['}'] + rest), numeric);
      FieldsReadBack(v, ks[1..], rest, numeric);
      NextFieldReads(Field(k, Emit(w)), others, k, w, Only(v, ks[1..]), rest);
      OnlySplits(v, ks);
    }
  }

  lemma OnlySplits(v: Json, ks: seq<string>)
    requires v.Obj? && ks != [] && forall k :: k in ks ==> k in v.fields
    ensures ks[0] in ks && Only(v, ks) == Only(v, ks[1..])[ks[0] := v.fields[ks[0]]]
    ensures |ks| == 1 ==> Only(v, ks) == map[ks[0] := v.fields[ks[0]]]
  {
    assert ks == [ks[0]] + ks[1..];
  }

  lemma LastFieldReads(f: string, k: string, w: Json, rest: string)
    requires ReadField(f + (['}'] + rest)) == Got((k, w), ['}'] + rest)
    ensures ReadFields(f + "" + ['}'] + rest) == Got(map[k := w], rest)
  {
    ReadFieldsLast(f + (['}'] + rest), k, w, rest);
    NothingAfter(f);
    Regroup(f, ['}'], rest);
  }

  lemma NextFieldReads(f: string, others: string, k: string, w: Json, m: map<string, Json>, rest: string)
    requires var more := others + ['}'] + rest;
      ReadField(f + ([','] + more)) == Got((k, w), [','] + more) && ReadFields(more) == Got(m, rest) && k !in m
    ensures ReadFields(f + ([','] + others) + ['}'] + rest) == Got(m[k := w], rest)
  {
    var more := others + ['}'] + rest;
    ReadFieldsMore(f + ([','] + more), k, w, more, m, rest);
    RegroupFour([','], others, ['}'], rest);
    RegroupFour(f, [','] + others, ['}'], rest);
  }

  // ---- What follows -----------------------------------------------------------------------

  lemma DocumentReadsBack(v: Json, numeric: Numeric)
    requires Plain(numeric) && Emittable(v, numeric)
    ensures ReadValue(Emit(v)) == Got(v, "")
  {
    assert Emit(v) + "" == Emit(v);
    ReadsBack(v, "", numeric);
  }

  /** Two trees are emitted alike only when they are one tree. */
  lemma EmissionIsInjective(v: Json, w: Json, numeric: Numeric)
    requires Plain(numeric) && Emittable(v, numeric) && Emittable(w, numeric)
    ensures Emit(v) == Emit(w) <==> v == w
  {
    DocumentReadsBack(v, numeric);
    DocumentReadsBack(w, numeric);
  }

  /** What follows a field. */
  ghost function MoreFields(v: Json, ks: seq<string>): string
    requires v.Obj? && forall k :: k in ks ==> k in v.fields
  {
    if ks == [] then "" else [','] + EmitFields(v, ks)
  }

  /** Each field where its key stands in the list. */
  lemma {:induction false} FieldAt(v: Json, ks: seq<string>, i: nat) returns (pre: string, rest: string)
    requires v.Obj? && (forall k :: k in ks ==> k in v.fields) && i < |ks|
    ensures ks[i] in v.fields
    ensures EmitFields(v, ks) == pre + Field(ks[i], Emit(v.fields[ks[i]])) + rest
    ensures rest == MoreFields(v, ks[i + 1..])
    decreases i
  {
    var first := Field(ks[0], Emit(v.fields[ks[0]]));
    if i == 0 {
      pre, rest := "", MoreFields(v, ks[1..]);
      NothingBefore(first);
    } else {
      var before;
      before, rest := FieldAt(v, ks[1..], i - 1);
      pre := first + ([','] + before);
      DropTwice(ks, i);
      Inside(first, [','], before, Field(ks[i], Emit(v.fields[ks[i]])), rest);
    }
  }

  lemma DropTwice(ks: seq<string>, i: nat)
    requires 0 < i < |ks|
    ensures ks[1..][i - 1] == ks[i] && ks[1..][i..] == ks[i + 1..]
  {
  }

  /** Of two keys of one object the one that is a proper beginning of the other, or has the smaller
      character where they first differ, stands earlier in the bytes. */
  lemma KeysInOrder(v: Json, k: string, l: string) returns (pre: string, between: string, post: string)
    requires v.Obj? && k in v.fields && l in v.fields && Before(k, l)
    ensures Emit(v) == pre + Field(k, Emit(v.fields[k])) + between + Field(l, Emit(v.fields[l])) + post
  {
    var ks := SortedFields(v.fields);
    var i, j := Positions(v.fields, ks, k, l);
    var head, rest, mid, tail := TwoFields(v, ks, i, j);
    pre, between, post := ['{'] + head, [','] + mid, tail + ['}'];
    EmitObject(v, ks);
    Around(['{'], head, Field(k, Emit(v.fields[k])), [','], mid, Field(l, Emit(v.fields[l])), tail, ['}']);
  }

  lemma EmitObject(v: Json, ks: seq<string>)
    requires v.Obj? && ks == SortedFields(v.fields)
    ensures Emit(v) == ['{'] + EmitFields(v, ks) + ['}']
  {
  }

  lemma TwoFields(v: Json, ks: seq<string>, i: nat, j: nat)
    returns (head: string, rest: string, mid: string, tail: string)
    requires v.Obj? && (forall k :: k in ks ==> k in v.fields) && i < j < |ks|
    ensures ks[i] in v.fields && ks[j] in v.fields
    ensures EmitFields(v, ks) == head + Field(ks[i], Emit(v.fields[ks[i]])) + rest
    ensures rest == [','] + (mid + Field(ks[j], Emit(v.fields[ks[j]])) + tail)
  {
    head, rest := FieldAt(v, ks, i);
    var later := LaterKeys(v, ks, i, j);
    mid, tail := LaterField(v, later, j - i - 1, rest);
  }

  lemma LaterKeys(v: Json, ks: seq<string>, i: nat, j: nat) returns (later: seq<string>)
    requires v.Obj? && (forall k :: k in ks ==> k in v.fields) && i < j < |ks|
    ensures later == ks[i + 1..] && (forall k :: k in later ==> k in v.fields) && later[j - i - 1] == ks[j]
  {
    later := ks[i + 1..];
  }

  lemma LaterField(v: Json, ks: seq<string>, j: nat, rest: string) returns (mid: string, tail: string)
    requires v.Obj? && (forall k :: k in ks ==> k in v.fields) && j < |ks| && rest == MoreFields(v, ks)
    ensures ks[j] in v.fields && rest == [','] + (mid + Field(ks[j], Emit(v.fields[ks[j]])) + tail)
  {
    mid, tail := FieldAt(v, ks, j);
  }

  lemma Positions(m: map<string, Json>, ks: seq<string>, k: string, l: string) returns (i: nat, j: nat)
    requires ks == SortedFields(m) && k in m && l in m && Before(k, l)
    ensures i < j < |ks| && ks[i] == k && ks[j] == l
  {
    i :| 0 <= i < |ks| && ks[i] == k;
    j :| 0 <= j < |ks| && ks[j] == l;
    StrLessMeans(k, l);
    StrLessTotal();
    assert Ascending(ks, StrLess);
    if j <= i { StrLessIrreflexive(k); StrLessTransitive(k, l, k); }
  }

  /** Bytes are canonical when they are read whole and emitted again unchanged. */
  ghost predicate IsCanonical(data: string, numeric: Numeric) {
    var r := ReadValue(data);
    r.Got? && r.rest == "" && Emittable(r.value, numeric) && Emit(r.value) == data
  }

  /** The test accepts exactly what the emitter can have produced. */
  lemma CanonicalIsEmitted(data: string, numeric: Numeric)
    requires Plain(numeric)
    ensures IsCanonical(data, numeric) <==> exists v :: Emittable(v, numeric) && Emit(v) == data
  {
    if v :| Emittable(v, numeric) && Emit(v) == data {
      DocumentReadsBack(v, numeric);
    }
  }

  // ---- Canonical documents ----------------------------------------------------------------

  /** A document type: the tree a document is written as, and the document some bytes hold, if any. */
  datatype Codec<!D> = Codec(toTree: D -> Json, decode: string -> Option<D>)

  /** What the codec owes: canonical bytes of a document hold a document that is written as the same tree. A
      field that is dropped when empty may come back another value, but not as other bytes. */
  ghost predicate Rewrites<D(!new)>(codec: Codec<D>, numeric: Numeric) {
    forall d :: Emittable(codec.toTree(d), numeric) ==>
      (var read := codec.decode(Emit(codec.toTree(d)));
       read.Some? && codec.toTree(read.value) == codec.toTree(d))
  }

  ghost function Marshal<D>(codec: Codec<D>, d: D, numeric: Numeric): Option<string> {
    if Emittable(codec.toTree(d), numeric) then Some(Emit(codec.toTree(d))) else None
  }

  /** Bytes are a canonical document when they hold one that is written as these very bytes. */
  ghost predicate IsCanonicalDocument<D>(codec: Codec<D>, data: string, numeric: Numeric) {
    codec.decode(data).Some? && Marshal(codec, codec.decode(data).value, numeric) == Some(data)
  }

  /** The test accepts exactly what some document is written as, and what it accepts reads back as that
      document's tree. */
  lemma CanonicalDocumentExactly<D(!new)>(codec: Codec<D>, data: string, numeric: Numeric)
    requires Plain(numeric) && Rewrites(codec, numeric)
    ensures IsCanonicalDocument(codec, data, numeric) <==> exists d :: Marshal(codec, d, numeric) == Some(data)
    ensures forall d :: Marshal(codec, d, numeric) == Some(data) ==> ReadValue(data) == Got(codec.toTree(d), "")
  {
    forall d | Marshal(codec, d, numeric) == Some(data) ensures ReadValue(data) == Got(codec.toTree(d), "") {
      DocumentReadsBack(codec.toTree(d), numeric);
    }
  }

  /** One canonical form: documents written alike are written as one tree. */
  lemma MarshalAlike<D>(codec: Codec<D>, c: D, d: D, numeric: Numeric)
    requires Plain(numeric) && Marshal(codec, c, numeric).Some? && Marshal(codec, d, numeric).Some?
    ensures Marshal(codec, c, numeric) == Marshal(codec, d, numeric) <==> codec.toTree(c) == codec.toTree(d)
  {
    EmissionIsInjective(codec.toTree(c), codec.toTree(d), numeric);
  }

  // ---- The emitter as it runs -------------------------------------------------------------

  /** Where k goes in an ascending list that does not hold it. */
  method Insert(ks: seq<string>, k: string) returns (out: seq<string>)
    requires Ascending(ks, StrLess) && k !in ks
    ensures Ascending(out, StrLess) && forall x :: x in out <==> x in ks || x == k
  {
    var i := |ks|;
    while i > 0 && StrLess(k, ks[i - 1])
      invariant 0 <= i <= |ks|
      invariant forall j :: i <= j < |ks| ==> StrLess(k, ks[j])
    {
      i := i - 1;
    }
    if i > 0 {
      assert ks[i - 1] in ks;
      StrLessConnected(ks[i - 1], k);
    }
    out := ks[..i] + [k] + ks[i..];
    forall j | 0 <= j < i ensures StrLess(ks[j], k) {
      if j < i - 1 { StrLessTransitive(ks[j], ks[i - 1], k); }
    }
    InsertedAscends(ks, k, i, StrLess);
  }

  /** The keys come out of the map in any order; the sorted list does not show it. */
  method SortKeys(m: map<string, Json>) returns (ks: seq<string>)
    ensures ks == SortedFields(m)
  {
    ks := [];
    var left := m.Keys;
    while left != {}
      invariant left <= m.Keys && Ascending(ks, StrLess)
      invariant forall x :: x in ks <==> x in m.Keys - left
      decreases |left|
    {
      var k :| k in left;
      ks := Insert(ks, k);
      left := left - {k};
    }
    StrLessTotal();
    AscendingUnique(ks, SortedFields(m), StrLess);
  }

  datatype Result = Ok(bytes: string) | Err(literal: string)

  method AppendCanonical(dst: string, v: Json, numeric: Numeric) returns (r: Result)
    ensures r.Ok? <==> Emittable(v, numeric)
    ensures r.Ok? ==> r.bytes == dst + Emit(v)
    ensures r.Err? ==> !numeric(r.literal)
    decreases v, 1
  {
    match v
    case Null => r := Ok(dst + "null");
    case Bool(b) => r := Ok(dst + if b then "true" else "false");
    case Number(literal) => r := if numeric(literal) then Ok(dst + literal) else Err(literal);
    case Str(s) =>
      var out := AppendString(dst, s);
      r := Ok(out);
    case Arr(items) => r := AppendArray(dst, v, numeric);
    case Obj(fields) => r := AppendObject(dst, v, numeric);
  }

  ghost function FieldText(v: Json, k: string): string
    requires v.Obj? && k in v.fields
  {
    Field(k, Emit(v.fields[k]))
  }

  /** Texts with a comma between each two. */
  ghost function Commas(texts: seq<string>): string {
    if texts == [] then "" else texts[0] + if |texts| == 1 then "" else [','] + Commas(texts[1..])
  }

  lemma {:induction false} CommasNext(texts: seq<string>, t: string)
    ensures Commas(texts + [t]) == Commas(texts) + (if texts == [] then "" else [',']) + t
  {
    if texts == [] {
      assert texts + [t] == [t];
    } else {
      var more := texts[1..];
      assert (texts + [t])[1..] == more + [t];
      CommasNext(more, t);
      if more == [] {
        assert Commas(texts) == texts[0];
      } else {
        var between := [','] + Commas(more);
        assert Commas(texts) == texts[0] + between;
        Regroup([','], Commas(more), [',']);
        Regroup([','], Commas(more) + [','], t);
        RegroupFour(texts[0], between, [','], t);
      }
    }
  }

  lemma {:induction false} ItemsAreCommas(items: seq<Json>, texts: seq<string>)
    requires |texts| == |items| && forall j :: 0 <= j < |items| ==> texts[j] == Emit(items[j])
    ensures EmitItems(items) == Commas(texts)
    decreases |items|
  {
    if items != [] { ItemsAreCommas(items[1..], texts[1..]); }
  }

  lemma {:induction false} FieldsAreCommas(v: Json, ks: seq<string>, texts: seq<string>)
    requires v.Obj? && (forall k :: k in ks ==> k in v.fields)
    requires |texts| == |ks| && forall j :: 0 <= j < |ks| ==> texts[j] == FieldText(v, ks[j])
    ensures EmitFields(v, ks) == Commas(texts)
    decreases |ks|
  {
    if ks != [] {
      assert ks[0] in ks;
      FieldsAreCommas(v, ks[1..], texts[1..]);
    }
  }

  method AppendArray(dst: string, v: Json, numeric: Numeric) returns (r: Result)
    requires v.Arr?
    ensures r.Ok? <==> Emittable(v, numeric)
    ensures r.Ok? ==> r.bytes == dst + Emit(v)
    ensures r.Err? ==> !numeric(r.literal)
    decreases v, 0
  {
    var items, out := v.items, dst + ['['];
    ghost var texts: seq<string> := [];
    NothingAfter(out);
    for i := 0 to |items|
      invariant |texts| == i && out == dst + ['['] + Commas(texts)
      invariant forall j :: 0 <= j < i ==> texts[j] == Emit(items[j]) && Emittable(items[j], numeric)
    {
      var before := if i > 0 then out + [','] else out;
      r := AppendCanonical(before, items[i], numeric);
      if r.Err? { return; }
      JoinedText(dst + ['['], texts, Emit(items[i]), out, before);
      out, texts := r.bytes, texts + [Emit(items[i])];
    }
    ItemsAreCommas(items, texts);
    RegroupFour(dst, ['['], EmitItems(items), [']']);
    r := Ok(out + [']']);
  }

  /** One text more, after a comma unless it is the first. */
  lemma JoinedText(dst: string, texts: seq<string>, t: string, out: string, before: string)
    requires out == dst + Commas(texts) && before == if texts != [] then out + [','] else out
    ensures before + t == dst + Commas(texts + [t])
  {
    CommasNext(texts, t);
    var sep := if texts == [] then "" else [','];
    RegroupFour(dst, Commas(texts), sep, t);
    NothingAfter(out);
  }

  method AppendField(dst: string, v: Json, k: string, numeric: Numeric) returns (r: Result)
    requires v.Obj? && k in v.fields
    ensures r.Ok? <==> Emittable(v.fields[k], numeric)
    ensures r.Ok? ==> r.bytes == dst + FieldText(v, k)
    ensures r.Err? ==> !numeric(r.literal)
    decreases v, 0, 0
  {
    var out := AppendString(dst, k);
    r := AppendCanonical(out + [':'], v.fields[k], numeric);
    RegroupFour(dst, Quote(k), [':'], Emit(v.fields[k]));
  }

  /** One field more, after a comma unless it is the first. */
  method AppendNext(ghost dst: string, ghost texts: seq<string>, first: bool, out: string, v: Json, k: string,
                    numeric: Numeric)
    returns (r: Result)
    requires v.Obj? && k in v.fields && out == dst + Commas(texts) && (first <==> texts == [])
    ensures r.Ok? <==> Emittable(v.fields[k], numeric)
    ensures r.Ok? ==> r.bytes == dst + Commas(texts + [FieldText(v, k)])
    ensures r.Err? ==> !numeric(r.literal)
    decreases v, 0, 1
  {
    var before := if first then out else out + [','];
    r := AppendField(before, v, k, numeric);
    JoinedText(dst, texts, FieldText(v, k), out, before);
  }

  /** The texts are those of the first keys, whose values can be emitted. */
  ghost predicate Emitted(v: Json, ks: seq<string>, texts: seq<string>, numeric: Numeric) {
    && v.Obj? && |texts| <= |ks|
    && forall j :: 0 <= j < |texts| ==>
      ks[j] in v.fields && texts[j] == FieldText(v, ks[j]) && Emittable(v.fields[ks[j]], numeric)
  }

  lemma EmittedNext(v: Json, ks: seq<string>, texts: seq<string>, numeric: Numeric)
    requires Emitted(v, ks, texts, numeric) && |texts| < |ks|
    requires ks[|texts|] in v.fields && Emittable(v.fields[ks[|texts|]], numeric)
    ensures Emitted(v, ks, texts + [FieldText(v, ks[|texts|])], numeric)
  {
  }

  method AppendFields(dst: string, v: Json, ks: seq<string>, numeric: Numeric) returns (r: Result)
    requires v.Obj? && forall k :: k in ks ==> k in v.fields
    ensures r.Ok? <==> forall j :: 0 <= j < |ks| ==> Emittable(v.fields[ks[j]], numeric)
    ensures r.Ok? ==> r.bytes == dst + EmitFields(v, ks)
    ensures r.Err? ==> !numeric(r.literal)
    decreases v, 0, 2
  {
    var out := dst;
    ghost var texts: seq<string> := [];
    NothingAfter(dst);
    for i := 0 to |ks|
      invariant |texts| == i && out == dst + Commas(texts) && Emitted(v, ks, texts, numeric)
    {
      r := AppendNext(dst, texts, i == 0, out, v, ks[i], numeric);
      if r.Err? { return; }
      EmittedNext(v, ks, texts, numeric);
      out, texts := r.bytes, texts + [FieldText(v, ks[i])];
    }
    FieldsAreCommas(v, ks, texts);
    r := Ok(out);
  }

  method AppendObject(dst: string, v: Json, numeric: Numeric) returns (r: Result)
    requires v.Obj?
    ensures r.Ok? <==> Emittable(v, numeric)
    ensures r.Ok? ==> r.bytes == dst + Emit(v)
    ensures r.Err? ==> !numeric(r.literal)
    decreases v, 0, 3
  {
    var ks := SortKeys(v.fields);
    r := AppendFields(dst + ['{'], v, ks, numeric);
    ObjectText(dst, v, ks);
    if r.Ok? { r := Ok(r.bytes + ['}']); }
    EveryField(v, ks, numeric);
  }

  lemma ObjectText(dst: string, v: Json, ks: seq<string>)
    requires v.Obj? && ks == SortedFields(v.fields)
    ensures dst + ['{'] + EmitFields(v, ks) + ['}'] == dst + Emit(v)
  {
    RegroupFour(dst, ['{'], EmitFields(v, ks), ['}']);
  }

  lemma EveryField(v: Json, ks: seq<string>, numeric: Numeric)
    requires v.Obj? && forall k :: k in ks <==> k in v.fields
    ensures Emittable(v, numeric) <==> forall j :: 0 <= j < |ks| ==> Emittable(v.fields[ks[j]], numeric)
  {
    if forall j :: 0 <= j < |ks| ==> Emittable(v.fields[ks[j]], numeric) {
      forall k | k in v.fields ensures Emittable(v.fields[k], numeric) {
        var j :| 0 <= j < |ks| && ks[j] == k;
      }
    }
  }
}
