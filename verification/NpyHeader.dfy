/** The `.npy` header parser of the smoke test (crates/diar-core/src/provision/verify.rs), against
    what NumPy writes ("Format Version 1.0" and "Format Version 2.0" of `numpy.lib.format`).
    UTF-8 validation is a parameter. */
module NpyHeader {
  import opened Wrappers
  import opened Bytes
  import opened Text

  // ---------------------------------------------------------------- the parser

  datatype NpyHeader = NpyHeader(descr: string, shape: seq<nat>)

  datatype NpyError = BadMagic | Truncated | NotUtf8 | NoDescr | NoShape

  const MAGIC: seq<Byte> := [0x93, 78, 85, 77, 80, 89]

  function TextUntil(s: string, until: string): Option<string> {
    match Find(s, until)
    case None => None
    case Some(j) => Some(s[..j])
  }

  function ExtractBetween(hay: string, after: string, until: string): Option<string> {
    match Find(hay, after)
    case None => None
    case Some(i) => TextUntil(hay[i + |after|..], until)
  }

  function TrimQuotes(s: string): string {
    TrimEndChar(TrimStartChar(s, '\''), '\'')
  }

  predicate IsDigit(c: char) {
    '0' <= c <= '9'
  }

  function DigitValue(c: char): nat
    requires IsDigit(c)
  {
    (c - '0') as nat
  }

  function DecimalValue(s: string): nat
    requires forall i :: 0 <= i < |s| ==> IsDigit(s[i])
  {
    if s == [] then 0 else 10 * DecimalValue(s[..|s| - 1]) + DigitValue(s[|s| - 1])
  }

  const USIZE_LIMIT: int := 0x1_0000_0000_0000_0000

  function AfterPlus(s: string): string {
    if s != [] && s[0] == '+' then s[1..] else s
  }

  /** `parse::<usize>`: digits with an optional plus sign, and no overflow of 64 bits. */
  function ParseUsize(s: string): Option<nat> {
    var body := AfterPlus(s);
    if body == [] || exists i :: 0 <= i < |body| && !IsDigit(body[i]) then None
    else if DecimalValue(body) >= USIZE_LIMIT then None
    else Some(DecimalValue(body))
  }

  /** `filter_map`: pieces that do not parse are dropped. */
  function ParsePieces(pieces: seq<string>): seq<nat> {
    if pieces == [] then []
    else
      (match ParseUsize(Trim(pieces[0])) case None => [] case Some(n) => [n]) + ParsePieces(pieces[1..])
  }

  function ParseDims(text: string): seq<nat> {
    ParsePieces(Split(text, ','))
  }

  function ParseHeader(header: string): Result<NpyHeader, NpyError> {
    match ExtractBetween(header, "'descr':", ",")
    case None => Err(NoDescr)
    case Some(descr) =>
      match ExtractBetween(header, "'shape':", ")")
      case None => Err(NoShape)
      case Some(shape) => Ok(NpyHeader(TrimQuotes(Trim(descr)), ParseDims(TrimStartChar(Trim(shape), '('))))
  }

  predicate HasMagic(bytes: seq<Byte>) {
    |bytes| >= 12 && bytes[..6] == MAGIC
  }

  /** Where the header text starts, and how long it says it is. */
  function HeaderSpan(bytes: seq<Byte>): (nat, nat)
    requires HasMagic(bytes)
  {
    if bytes[6] == 1 then (10, FromLe(bytes[8], bytes[9], 0, 0))
    else (12, FromLe(bytes[8], bytes[9], bytes[10], bytes[11]))
  }

  function ReadNpyHeader(bytes: seq<Byte>, utf8: seq<Byte> -> Option<string>): Result<NpyHeader, NpyError> {
    if !HasMagic(bytes) then Err(BadMagic)
    else
      var (start, hlen) := HeaderSpan(bytes);
      if start + hlen > |bytes| then Err(Truncated)
      else
        match utf8(bytes[start..start + hlen])
        case None => Err(NotUtf8)
        case Some(header) => ParseHeader(header)
  }

  // ---------------------------------------------------------------- what NumPy writes

  function Decimal(n: nat): (s: string)
    ensures s != [] && forall i :: 0 <= i < |s| ==> IsDigit(s[i])
  {
    if n < 10 then [DigitChar(n)] else Decimal(n / 10) + [DigitChar(n % 10)]
  }

  function DigitChar(d: nat): (c: char)
    requires d < 10
    ensures IsDigit(c) && DigitValue(c) == d
  {
    '0' + d as char
  }

  function MoreDims(shape: seq<nat>): string {
    if shape == [] then "" else ", " + Decimal(shape[0]) + MoreDims(shape[1..])
  }

  /** The inside of a Python tuple: nothing, `n,`, or `n, m, …`. */
  function TupleText(shape: seq<nat>): string {
    if shape == [] then ""
    else if |shape| == 1 then Decimal(shape[0]) + ","
    else Decimal(shape[0]) + MoreDims(shape[1..])
  }

  /** The dictionary of a header; `tail` is the closing text and the padding. */
  function DictText(descr: string, fortran: bool, shape: seq<nat>, tail: string): string {
    "{" + ("'descr" + ("': " + DescrText(descr, fortran, shape, tail)))
  }

  function DescrText(descr: string, fortran: bool, shape: seq<nat>, tail: string): string {
    "'" + descr + ("', " + OrderText(fortran, shape, tail))
  }

  function OrderText(fortran: bool, shape: seq<nat>, tail: string): string {
    "'fortran_order" + ((if fortran then "': True, " else "': False, ") + ShapeText(shape, tail))
  }

  function ShapeText(shape: seq<nat>, tail: string): string {
    "'shape':" + (" (" + TupleText(shape) + ")" + tail)
  }

  function Version1(minor: Byte, header: seq<Byte>, data: seq<Byte>): seq<Byte>
    requires |header| < 0x1_0000
  {
    MAGIC + [1, minor] + [|header| % 256, |header| / 256] + header + data
  }

  /** Version 2, or any other but 1, which is read alike. */
  function Version2(major: Byte, minor: Byte, header: seq<Byte>, data: seq<Byte>): seq<Byte>
    requires |header| < WORD_LIMIT
  {
    MAGIC + [major, minor] + ToLe(|header|) + header + data
  }

  // ---------------------------------------------------------------- searching

  /** The pattern starts nowhere in a piece that has its first character at most in front, and
      there is not followed by its second. */
  lemma {:induction false} SkipPiece(a: string, s: string, pat: string)
    requires |pat| >= 2 && |a| >= 1
    requires forall k :: 1 <= k < |a| ==> a[k] != pat[0]
    requires a[0] == pat[0] ==> |a| >= 2 && a[1] != pat[1]
    requires Find(s, pat).Some?
    ensures Find(a + s, pat) == Some(|a| + Find(s, pat).value)
    ensures (a + s)[Find(a + s, pat).value..] == s[Find(s, pat).value..]
  {
    forall j: nat | j < |a| ensures !OccursAt(a + s, pat, j) {
      OccursChars(a + s, pat, j);
      assert (a + s)[j] == a[j];
      if j == 0 && a[0] == pat[0] {
        assert (a + s)[j + 1] == a[1];
      }
    }
    FindShift(a, s, pat);
  }

  lemma FindHere(pat: string, s: string)
    ensures Find(pat + s, pat) == Some(0) && (pat + s)[0..] == pat + s
  {
    assert (pat + s)[0..] == pat + s;
    FindIs(pat + s, pat, 0);
  }

  const SHAPE_KEY: string := "'shape':"

  /** The quoted type name is not mistaken for the shape key, not even when it is `shape`. */
  lemma {:induction false} NotTheShapeKey(descr: string, s: string)
    requires '\'' !in descr && |s| >= 2 && s[0] == '\'' && s[1] == ','
    ensures !OccursAt("'" + descr + s, SHAPE_KEY, 0)
  {
    var h := "'" + descr + s;
    OccursChars(h, SHAPE_KEY, 0);
    assert h[1 + |descr|] == '\'' && h[2 + |descr|] == ',';
    if |descr| > 5 {
      assert h[6] == descr[5];
      assert SHAPE_KEY[6] == '\'';
    } else if |descr| == 5 {
      assert SHAPE_KEY[7] == ':';
    } else {
      assert SHAPE_KEY[1 + |descr|] != '\'';
    }
  }

  lemma {:induction false} SkipDescr(descr: string, s: string)
    requires '\'' !in descr && |s| >= 2 && s[0] == '\'' && s[1] == ','
    requires Find(s, SHAPE_KEY).Some?
    ensures Find("'" + descr + s, SHAPE_KEY).Some?
    ensures ("'" + descr + s)[Find("'" + descr + s, SHAPE_KEY).value..] == s[Find(s, SHAPE_KEY).value..]
  {
    var a := "'" + descr;
    forall j: nat | j < |a| ensures !OccursAt(a + s, SHAPE_KEY, j) {
      if j == 0 {
        NotTheShapeKey(descr, s);
      } else {
        OccursChars(a + s, SHAPE_KEY, j);
        assert (a + s)[j] == descr[j - 1];
      }
    }
    FindShift(a, s, SHAPE_KEY);
  }

  // ---------------------------------------------------------------- the two keys

  ghost predicate LeadsToShape(h: string, shape: seq<nat>, tail: string) {
    Find(h, SHAPE_KEY).Some? && h[Find(h, SHAPE_KEY).value..] == ShapeText(shape, tail)
  }

  /** A piece of the dictionary in which the shape key cannot start. */
  predicate Plain(a: string) {
    && |a| >= 1
    && (forall k :: 1 <= k < |a| ==> a[k] != '\'')
    && (a[0] == '\'' ==> |a| >= 2 && a[1] != 's')
  }

  lemma PlainPieces()
    ensures Plain("{") && Plain("'descr") && Plain("': ") && Plain("', ") && Plain("'fortran_order")
    ensures Plain("': True, ") && Plain("': False, ")
  {
  }

  lemma {:induction false} LeadOver(a: string, s: string, shape: seq<nat>, tail: string)
    requires LeadsToShape(s, shape, tail) && Plain(a)
    ensures LeadsToShape(a + s, shape, tail)
  {
    SkipPiece(a, s, SHAPE_KEY);
  }

  lemma {:induction false} ShapeKeyInOrder(fortran: bool, shape: seq<nat>, tail: string)
    ensures LeadsToShape(OrderText(fortran, shape, tail), shape, tail)
  {
    FindHere(SHAPE_KEY, " (" + TupleText(shape) + ")" + tail);
    var flag := if fortran then "': True, " else "': False, ";
    PlainPieces();
    LeadOver(flag, ShapeText(shape, tail), shape, tail);
    LeadOver("'fortran_order", flag + ShapeText(shape, tail), shape, tail);
  }

  lemma {:induction false} ShapeKeyInDescr(descr: string, fortran: bool, shape: seq<nat>, tail: string)
    requires '\'' !in descr
    ensures LeadsToShape(DescrText(descr, fortran, shape, tail), shape, tail)
  {
    ShapeKeyInOrder(fortran, shape, tail);
    var order := OrderText(fortran, shape, tail);
    PlainPieces();
    LeadOver("', ", order, shape, tail);
    SkipDescr(descr, "', " + order);
  }

  lemma {:induction false} ShapeKey(descr: string, fortran: bool, shape: seq<nat>, tail: string)
    requires '\'' !in descr
    ensures LeadsToShape(DictText(descr, fortran, shape, tail), shape, tail)
  {
    ShapeKeyInDescr(descr, fortran, shape, tail);
    var text := DescrText(descr, fortran, shape, tail);
    PlainPieces();
    LeadOver("': ", text, shape, tail);
    LeadOver("'descr", "': " + text, shape, tail);
    LeadOver("{", "'descr" + ("': " + text), shape, tail);
  }

  lemma {:induction false} DescrKey(descr: string, fortran: bool, shape: seq<nat>, tail: string)
    ensures var h := DictText(descr, fortran, shape, tail);
            Find(h, "'descr':") == Some(1) && h[9..] == " " + DescrText(descr, fortran, shape, tail)
  {
    var text := DescrText(descr, fortran, shape, tail);
    KeyAfterBrace("'descr':", " " + text);
    assert "'descr" + ("': " + text) == "'descr':" + (" " + text);
    assert DictText(descr, fortran, shape, tail) == "{" + ("'descr':" + (" " + text));
  }

  lemma {:induction false} KeyAfterBrace(key: string, s: string)
    requires |key| >= 2 && key[0] != '{'
    ensures Find("{" + (key + s), key) == Some(1) && ("{" + (key + s))[1 + |key|..] == s
  {
    FindHere(key, s);
    SkipPiece("{", key + s, key);
    assert ("{" + (key + s))[1 + |key|..] == s;
  }

  // ---------------------------------------------------------------- the two values

  lemma TrimQuotesOf(descr: string)
    requires '\'' !in descr
    ensures TrimQuotes("'" + descr + "'") == descr
  {
    var q := "'" + descr + "'";
    assert q[1..] == descr + "'";
    if descr == "" {
      assert q[1..] == "'" && "'"[1..] == "";
      assert TrimStartChar("'", '\'') == "";
      assert TrimStartChar(q, '\'') == "";
    } else {
      assert (descr + "'")[0] == descr[0] && descr[0] in descr;
      assert TrimStartChar(q, '\'') == descr + "'";
      var r := descr + "'";
      assert r[..|r| - 1] == descr && r[|r| - 1] == '\'';
      assert descr[|descr| - 1] in descr;
      assert TrimEndChar(descr, '\'') == descr;
      assert TrimEndChar(r, '\'') == TrimEndChar(descr, '\'');
    }
  }

  lemma {:induction false} DescrUntilComma(descr: string, fortran: bool, shape: seq<nat>, tail: string)
    requires ',' !in descr
    ensures var raw, rest := " '" + descr + "'", " " + DescrText(descr, fortran, shape, tail);
            Find(rest, ",") == Some(|raw|) && rest[..|raw|] == raw
  {
    var raw, rest := " '" + descr + "'", " " + DescrText(descr, fortran, shape, tail);
    var after := " " + OrderText(fortran, shape, tail);
    assert rest == raw + [','] + after;
    FindChar(raw, ',', after);
  }

  lemma {:induction false} DescrValue(descr: string, fortran: bool, shape: seq<nat>, tail: string)
    requires ',' !in descr && '\'' !in descr
    ensures ExtractBetween(DictText(descr, fortran, shape, tail), "'descr':", ",") == Some(" '" + descr + "'")
    ensures TrimQuotes(Trim(" '" + descr + "'")) == descr
  {
    DescrKey(descr, fortran, shape, tail);
    DescrUntilComma(descr, fortran, shape, tail);
    var raw := " '" + descr + "'";
    assert raw == " " + ("'" + descr + "'");
    TrimUnchanged("'" + descr + "'");
    TrimQuotesOf(descr);
  }

  lemma {:induction false} DecimalChars(n: nat)
    ensures Decimal(n)[0] != '+' && Decimal(n)[0] != '('
    ensures ',' !in Decimal(n) && ')' !in Decimal(n)
    ensures Trim(Decimal(n)) == Decimal(n) && Trim(" " + Decimal(n)) == Decimal(n)
  {
    var d := Decimal(n);
    assert IsDigit(d[0]) && IsDigit(d[|d| - 1]);
    TrimUnchanged(d);
  }

  lemma {:induction false} DecimalValueOf(n: nat)
    ensures DecimalValue(Decimal(n)) == n
  {
    if n >= 10 {
      DecimalValueOf(n / 10);
      assert Decimal(n)[..|Decimal(n)| - 1] == Decimal(n / 10);
    } else {
      assert Decimal(n)[..0] == [];
    }
  }

  lemma {:induction false} ParseDecimal(n: nat)
    requires n < USIZE_LIMIT
    ensures ParseUsize(Decimal(n)) == Some(n)
  {
    DecimalChars(n);
    DecimalValueOf(n);
  }

  ghost predicate Representable(shape: seq<nat>) {
    forall i :: 0 <= i < |shape| ==> shape[i] < USIZE_LIMIT
  }

  lemma {:induction false} ParseCons(w: string, n: nat, pieces: seq<string>)
    requires n < USIZE_LIMIT && Trim(w) == Decimal(n)
    ensures ParsePieces([w] + pieces) == [n] + ParsePieces(pieces)
  {
    ParseDecimal(n);
    assert ([w] + pieces)[1..] == pieces;
  }

  /** The empty piece after a trailing comma is dropped. */
  lemma {:induction false} ParseEmpty()
    ensures ParseDims("") == []
  {
    assert Split("", ',') == [""];
    assert Trim("") == "";
    assert ParseUsize("") == None;
    assert [""][1..] == [];
  }

  lemma {:induction false} ParseLastDim(lead: string, n: nat)
    requires lead == "" || lead == " "
    requires n < USIZE_LIMIT
    ensures ParseDims(lead + Decimal(n)) == [n]
  {
    var w := lead + Decimal(n);
    DimPiece(lead, n);
    SplitNone(w, ',');
    ParseCons(w, n, []);
    assert [w] + [] == [w];
  }

  lemma {:induction false} ParseFirstDim(lead: string, n: nat, rest: string)
    requires lead == "" || lead == " "
    requires n < USIZE_LIMIT
    ensures ParseDims(lead + Decimal(n) + [','] + rest) == [n] + ParseDims(rest)
  {
    DimPiece(lead, n);
    SplitFirst(lead + Decimal(n), ',', rest);
    ParseCons(lead + Decimal(n), n, Split(rest, ','));
  }

  lemma {:induction false} DimPiece(lead: string, n: nat)
    requires lead == "" || lead == " "
    ensures ',' !in lead + Decimal(n) && Trim(lead + Decimal(n)) == Decimal(n)
  {
    DecimalChars(n);
    assert lead == "" ==> lead + Decimal(n) == Decimal(n);
  }

  /** One dimension, after nothing or a space, and the dimensions that follow it. */
  lemma {:induction false} ParseMoreDims(lead: string, n: nat, more: seq<nat>)
    requires lead == "" || lead == " "
    requires n < USIZE_LIMIT && Representable(more)
    ensures ParseDims(lead + Decimal(n) + MoreDims(more)) == [n] + more
    decreases |more|
  {
    if more == [] {
      assert lead + Decimal(n) + MoreDims(more) == lead + Decimal(n);
      ParseLastDim(lead, n);
    } else {
      var rest := " " + Decimal(more[0]) + MoreDims(more[1..]);
      assert MoreDims(more) == [','] + rest;
      assert lead + Decimal(n) + MoreDims(more) == lead + Decimal(n) + [','] + rest;
      ParseFirstDim(lead, n, rest);
      ParseMoreDims(" ", more[0], more[1..]);
      assert more == [more[0]] + more[1..];
    }
  }

  lemma {:induction false} ParseTuple(shape: seq<nat>)
    requires Representable(shape)
    ensures ParseDims(TupleText(shape)) == shape
  {
    ParseEmpty();
    if |shape| == 1 {
      assert TupleText(shape) == "" + Decimal(shape[0]) + [','] + "";
      ParseFirstDim("", shape[0], "");
      assert shape == [shape[0]] + [];
    } else if |shape| > 1 {
      ParseMoreDims("", shape[0], shape[1..]);
      assert "" + Decimal(shape[0]) == Decimal(shape[0]);
      assert shape == [shape[0]] + shape[1..];
    }
  }

  lemma {:induction false} MoreDimsChars(more: seq<nat>)
    ensures ')' !in MoreDims(more)
    ensures more != [] ==> IsDigit(MoreDims(more)[|MoreDims(more)| - 1])
  {
    if more != [] {
      DecimalChars(more[0]);
      MoreDimsChars(more[1..]);
      assert MoreDims(more) == ", " + Decimal(more[0]) + MoreDims(more[1..]);
    }
  }

  /** The inside of the tuple holds no closing parenthesis and neither starts nor ends with
      something that trimming removes. */
  lemma {:induction false} TupleChars(shape: seq<nat>)
    ensures ')' !in TupleText(shape)
    ensures TrimStartChar(Trim(" (" + TupleText(shape)), '(') == TupleText(shape)
  {
    var t := TupleText(shape);
    if shape != [] {
      DecimalChars(shape[0]);
      MoreDimsChars(shape[1..]);
      assert t[0] == Decimal(shape[0])[0];
    }
    assert " (" + t == " " + ("(" + t);
    assert t != [] ==> t[|t| - 1] == ',' || IsDigit(t[|t| - 1]);
    TrimUnchanged("(" + t);
    assert ("(" + t)[1..] == t;
  }

  lemma {:induction false} ShapeUntilParen(shape: seq<nat>, tail: string)
    requires ')' !in TupleText(shape)
    ensures var raw, rest := " (" + TupleText(shape), ShapeText(shape, tail)[|SHAPE_KEY|..];
            Find(rest, ")") == Some(|raw|) && rest[..|raw|] == raw
  {
    var raw := " (" + TupleText(shape);
    assert ShapeText(shape, tail)[|SHAPE_KEY|..] == raw + [')'] + tail;
    FindChar(raw, ')', tail);
  }

  lemma {:induction false} DropTwice(h: string, i: nat, k: nat)
    requires i + k <= |h|
    ensures h[i + k..] == h[i..][k..]
  {
  }

  lemma {:induction false} ShapeValue(descr: string, fortran: bool, shape: seq<nat>, tail: string)
    requires '\'' !in descr
    ensures ExtractBetween(DictText(descr, fortran, shape, tail), SHAPE_KEY, ")") == Some(" (" + TupleText(shape))
  {
    ShapeKey(descr, fortran, shape, tail);
    TupleChars(shape);
    ShapeUntilParen(shape, tail);
    ExtractAfter(DictText(descr, fortran, shape, tail), SHAPE_KEY, ")", ShapeText(shape, tail));
  }

  lemma {:induction false} ExtractAfter(h: string, after: string, until: string, rest: string)
    requires Find(h, after).Some? && h[Find(h, after).value..] == rest && |after| <= |rest|
    ensures ExtractBetween(h, after, until) == TextUntil(rest[|after|..], until)
  {
    DropTwice(h, Find(h, after).value, |after|);
  }

  lemma {:induction false} ShapeDims(shape: seq<nat>)
    requires Representable(shape)
    ensures ParseDims(TrimStartChar(Trim(" (" + TupleText(shape)), '(')) == shape
  {
    TupleChars(shape);
    ParseTuple(shape);
  }

  /** Any dictionary NumPy writes is parsed back, for every rank and for both spellings of short
      tuples, whatever closing text and padding follow. */
  lemma ParseInvertsDict(descr: string, fortran: bool, shape: seq<nat>, tail: string)
    requires ',' !in descr && '\'' !in descr && Representable(shape)
    ensures ParseHeader(DictText(descr, fortran, shape, tail)) == Ok(NpyHeader(descr, shape))
  {
    DescrValue(descr, fortran, shape, tail);
    ShapeValue(descr, fortran, shape, tail);
    ShapeDims(shape);
  }

  // ---------------------------------------------------------------- other headers

  /** `until` occurs behind some occurrence of `after`. */
  ghost predicate Between(hay: string, after: string, until: string) {
    exists i: nat, j: nat :: OccursAt(hay, after, i) && i + |after| <= j && OccursAt(hay, until, j)
  }

  lemma OccursBehind(hay: string, until: string, k: nat)
    requires k <= |hay|
    ensures forall j: nat :: k <= j ==> (OccursAt(hay, until, j) <==> OccursAt(hay[k..], until, j - k))
  {
    forall j: nat | k <= j
      ensures OccursAt(hay, until, j) <==> OccursAt(hay[k..], until, j - k)
    {
      assert hay == hay[..k] + hay[k..];
      OccursShift(hay[..k], hay[k..], until, j - k);
    }
  }

  /** The text between the first `after` and the first `until` behind it is found whenever there is
      an `until` behind any `after`. */
  lemma ExtractExactlyWhen(hay: string, after: string, until: string)
    ensures ExtractBetween(hay, after, until).Some? <==> Between(hay, after, until)
  {
    FindIsFirst(hay, after);
    if Find(hay, after).Some? {
      var k := Find(hay, after).value + |after|;
      FindIsFirst(hay[k..], until);
      OccursBehind(hay, until, k);
      if Find(hay[k..], until).Some? {
        assert OccursAt(hay, until, k + Find(hay[k..], until).value);
      }
      if Between(hay, after, until) {
        var i: nat, j: nat :| OccursAt(hay, after, i) && i + |after| <= j && OccursAt(hay, until, j);
        assert k <= j;
      }
    }
  }

  /** A header is refused exactly for want of a type, or else of a shape. */
  lemma HeaderErrorExactlyWhen(header: string)
    ensures ParseHeader(header) == Err(NoDescr) <==> !Between(header, "'descr':", ",")
    ensures ParseHeader(header) == Err(NoShape) <==>
            Between(header, "'descr':", ",") && !Between(header, "'shape':", ")")
    ensures ParseHeader(header).Ok? <==> Between(header, "'descr':", ",") && Between(header, "'shape':", ")")
  {
    ExtractExactlyWhen(header, "'descr':", ",");
    ExtractExactlyWhen(header, "'shape':", ")");
  }

  /** Dimensions are read piece by piece; one that is no number is dropped. */
  lemma ParsePiecesCons(piece: string, pieces: seq<string>)
    ensures ParsePieces([]) == []
    ensures ParsePieces([piece] + pieces) ==
              match ParseUsize(Trim(piece)) case None => ParsePieces(pieces) case Some(n) => [n] + ParsePieces(pieces)
  {
    assert ([piece] + pieces)[1..] == pieces;
  }

  lemma {:induction false} LeadingZero(s: string)
    requires forall i :: 0 <= i < |s| ==> IsDigit(s[i])
    ensures DecimalValue("0" + s) == DecimalValue(s)
  {
    if s == "" {
      assert "0" + s == "0" && "0"[..0] == "";
    } else {
      LeadingZero(s[..|s| - 1]);
      assert ("0" + s)[..|s|] == "0" + s[..|s| - 1];
    }
  }

  /** A plus sign is allowed; anything else but digits, nothing at all, or 2^64 and more is no number. */
  lemma ParseUsizeExactlyWhen(s: string, n: nat)
    requires forall i :: 0 <= i < |s| ==> IsDigit(s[i])
    ensures ParseUsize(s) == Some(n) <==> s != "" && n == DecimalValue(s) && n < 0x1_0000_0000_0000_0000
    ensures ParseUsize("+" + s) == ParseUsize(s)
  {
    assert ("+" + s)[1..] == s;
  }

  lemma NotDigitsIsNoNumber(s: string, k: nat)
    requires k < |s| && !IsDigit(s[k]) && s[0] != '+'
    ensures ParseUsize(s).None? && ParseUsize("+" + s).None?
  {
    assert ("+" + s)[1..] == s;
    assert s != [] && exists i :: 0 <= i < |s| && !IsDigit(s[i]);
  }

  lemma TwoSignsIsNoNumber(s: string)
    ensures ParseUsize("++" + s).None?
  {
    assert ("++" + s)[1..] == "+" + s;
    assert !IsDigit(("+" + s)[0]);
  }

  // ---------------------------------------------------------------- whole files

  lemma Version1Span(minor: Byte, header: seq<Byte>, data: seq<Byte>)
    requires 2 <= |header| < 0x1_0000
    ensures var f := Version1(minor, header, data);
            HasMagic(f) && HeaderSpan(f) == (10, |header|) && 10 + |header| <= |f| && f[10..10 + |header|] == header
  {
    var f := Version1(minor, header, data);
    assert f[..6] == MAGIC;
    assert f[6..10] == [1, minor, |header| % 256, |header| / 256];
    assert f[10..10 + |header|] == header;
  }

  lemma Version2Span(major: Byte, minor: Byte, header: seq<Byte>, data: seq<Byte>)
    requires major != 1 && |header| < WORD_LIMIT
    ensures var f := Version2(major, minor, header, data);
            HasMagic(f) && HeaderSpan(f) == (12, |header|) && 12 + |header| <= |f| && f[12..12 + |header|] == header
  {
    var f := Version2(major, minor, header, data);
    var len := ToLe(|header|);
    assert f[..6] == MAGIC;
    assert f[6] == major;
    assert f[8..12] == len;
    FromLeInvertsToLe(|header|);
    assert f[12..12 + |header|] == header;
  }

  /** MAIN RESULT. For every shape of any rank and every type name without comma or quote, the
      parser reads back exactly that name and shape from a version 1 or 2 file. */
  lemma ReadInvertsWrite(descr: string, fortran: bool, shape: seq<nat>, tail: string, major: Byte, minor: Byte,
                         header: seq<Byte>, data: seq<Byte>, utf8: seq<Byte> -> Option<string>)
    requires ',' !in descr && '\'' !in descr && Representable(shape)
    requires utf8(header) == Some(DictText(descr, fortran, shape, tail)) && |header| >= 2
    ensures |header| < 0x1_0000 ==> ReadNpyHeader(Version1(minor, header, data), utf8) == Ok(NpyHeader(descr, shape))
    ensures major != 1 && |header| < WORD_LIMIT ==> ReadNpyHeader(Version2(major, minor, header, data), utf8) == Ok(NpyHeader(descr, shape))
  {
    ParseInvertsDict(descr, fortran, shape, tail);
    var text := DictText(descr, fortran, shape, tail);
    if |header| < 0x1_0000 {
      Version1Span(minor, header, data);
      ReadIsParse(Version1(minor, header, data), 10, header, utf8, text);
    }
    if major != 1 && |header| < WORD_LIMIT {
      Version2Span(major, minor, header, data);
      ReadIsParse(Version2(major, minor, header, data), 12, header, utf8, text);
    }
  }

  lemma ReadIsParse(file: seq<Byte>, start: nat, header: seq<Byte>, utf8: seq<Byte> -> Option<string>, text: string)
    requires HasMagic(file) && HeaderSpan(file) == (start, |header|) && start + |header| <= |file|
    requires file[start..start + |header|] == header && utf8(header) == Some(text)
    ensures ReadNpyHeader(file, utf8) == ParseHeader(text)
  {
  }

  /** A header that is no text is refused as such, in either layout. */
  lemma NotTextIsRefused(major: Byte, minor: Byte, header: seq<Byte>, data: seq<Byte>, utf8: seq<Byte> -> Option<string>)
    requires utf8(header).None? && |header| >= 2
    ensures |header| < 0x1_0000 ==> ReadNpyHeader(Version1(minor, header, data), utf8) == Err(NotUtf8)
    ensures major != 1 && |header| < WORD_LIMIT ==> ReadNpyHeader(Version2(major, minor, header, data), utf8) == Err(NotUtf8)
  {
    if |header| < 0x1_0000 {
      Version1Span(minor, header, data);
    }
    if major != 1 && |header| < WORD_LIMIT {
      Version2Span(major, minor, header, data);
    }
  }

  /** What a version 1 file reads as when it is cut anywhere: below 12 bytes it has no
      magic, short of its header's end it is truncated, and from there on nothing is missing. */
  lemma CutVersion1(minor: Byte, header: seq<Byte>, data: seq<Byte>, k: nat, utf8: seq<Byte> -> Option<string>)
    requires |header| < 0x1_0000 && k <= 10 + |header| + |data|
    ensures var f := Version1(minor, header, data);
            && |f| == 10 + |header| + |data|
            && ReadNpyHeader(f[..k], utf8) ==
                 (if k < 12 then Err(BadMagic) else if k < 10 + |header| then Err(Truncated) else ReadNpyHeader(f, utf8))
  {
    if k >= 12 {
      var f := Version1(minor, header, data);
      assert f[..k][..6] == f[..6] == MAGIC;
      assert f[6..10] == [1, minor, |header| % 256, |header| / 256];
      CutFile(f, k, 10, |header|, utf8);
    }
  }

  /** The same of a version 2 file. */
  lemma CutVersion2(major: Byte, minor: Byte, header: seq<Byte>, data: seq<Byte>, k: nat, utf8: seq<Byte> -> Option<string>)
    requires major != 1 && |header| < WORD_LIMIT && k <= 12 + |header| + |data|
    ensures var f := Version2(major, minor, header, data);
            && |f| == 12 + |header| + |data|
            && ReadNpyHeader(f[..k], utf8) ==
                 (if k < 12 then Err(BadMagic) else if k < 12 + |header| then Err(Truncated) else ReadNpyHeader(f, utf8))
  {
    if k >= 12 {
      var f := Version2(major, minor, header, data);
      Version2Span(major, minor, header, data);
      CutFile(f, k, 12, |header|, utf8);
    }
  }

  lemma SliceOfPrefix(f: seq<Byte>, k: nat, lo: nat, hi: nat)
    requires lo <= hi <= k <= |f|
    ensures f[..k][lo..hi] == f[lo..hi]
  {
  }

  /** Cutting behind the first 12 bytes leaves the header where it is. */
  lemma CutFile(f: seq<Byte>, k: nat, start: nat, hlen: nat, utf8: seq<Byte> -> Option<string>)
    requires 12 <= k <= |f| && HasMagic(f) && HeaderSpan(f) == (start, hlen)
    ensures ReadNpyHeader(f[..k], utf8) == if start + hlen > k then Err(Truncated) else ReadNpyHeader(f, utf8)
  {
    assert f[..k][..6] == f[..6];
    if start + hlen <= k {
      SliceOfPrefix(f, k, start, start + hlen);
    }
  }
}
