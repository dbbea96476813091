/** internal/models/range.go: header ranges of 32-bit values, their text and JSON forms. */
module HeaderRanges {
  import opened Options
  import opened Decimal
  import opened Domain

  const MAX_UINT32: nat := 0xffff_ffff

  datatype Result<T> = Ok(value: T) | Fail

  /** A value of the struct; nothing keeps lo <= hi by itself. */
  datatype Range = Range(lo: nat, hi: nat) {
    predicate Fits() { lo <= MAX_UINT32 && hi <= MAX_UINT32 }

    predicate Valid() { lo <= hi <= MAX_UINT32 }

    predicate Contains(v: nat) { lo <= v <= hi }

    predicate Overlap(other: Range) { lo <= other.hi && other.lo <= hi }

    function String(): string { if lo == hi then Format(lo) else Format(lo) + "-" + Format(hi) }
  }

  function NewHeaderRange(lo: nat, hi: nat): Range { if hi < lo then Range(hi, lo) else Range(lo, hi) }

  function Degenerate(n: nat): Range { Range(n, n) }

  // ---- what the values mean ------------------------------------------------

  /** Overlap means a common value, exactly as long as neither range is empty. */
  lemma OverlapIffCommonValue(a: Range, b: Range)
    ensures (exists v :: a.Contains(v) && b.Contains(v)) <==> a.Overlap(b) && a.lo <= a.hi && b.lo <= b.hi
  {
    if a.Overlap(b) && a.lo <= a.hi && b.lo <= b.hi {
      var v := if a.lo < b.lo then b.lo else a.lo;
      assert a.Contains(v) && b.Contains(v);
    }
  }

  /** The two bounds may be given in either order. */
  lemma BoundsInAnyOrder(lo: nat, hi: nat, v: nat)
    ensures NewHeaderRange(lo, hi) == NewHeaderRange(hi, lo)
    ensures NewHeaderRange(lo, hi).Contains(v) <==> lo <= v <= hi || hi <= v <= lo
  {
  }

  // ---- the parsers ---------------------------------------------------------

  /** strconv.ParseUint(s, 10, 32). */
  function ParseUint(s: string): Result<nat> {
    if s != "" && AllDigits(s) && Value(s) <= MAX_UINT32 then Ok(Value(s)) else Fail
  }

  /** strings.Trim(s, "\""). */
  function TrimQuotes(s: string): string
    decreases |s|
  {
    if s != "" && s[0] == '"' then TrimQuotes(s[1..])
    else if s != "" && s[|s| - 1] == '"' then TrimQuotes(s[..|s| - 1])
    else s
  }

  function ParseString(val: string): Result<Range> {
    var str := TrimSpace(val);
    if str == "" then Ok(Range(0, 0)) else ParseBody(TrimQuotes(str))
  }

  function ParseParts(parts: seq<string>): Result<Range> {
    if |parts| == 1 then
      var part := TrimSpace(parts[0]);
      if part == "" then Ok(Range(0, 0))
      else match ParseUint(part)
        case Ok(n) => Ok(Degenerate(n))
        case Fail => Fail
    else if |parts| == 2 then
      match (ParseUint(TrimSpace(parts[0])), ParseUint(TrimSpace(parts[1])))
      case (Ok(lo), Ok(hi)) => if hi < lo then Fail else Ok(Range(lo, hi))
      case _ => Fail
    else Fail
  }

  /** A number as Go's float64 holds it. */
  datatype Float = NaN | Infinite | Finite(value: real)

  datatype Input =
    | Nil | OfRange(r: Range) | NilRange | Text(s: string)
    | Signed(n: int) | Unsigned(u: nat) | Uint32(w: nat) | Floating(f: Float) | OtherType

  function ParseInt(n: int): Result<Range> { if n < 0 || n > MAX_UINT32 then Fail else Ok(Degenerate(n)) }

  function ParseFloat(f: Float): Result<Range> {
    if !f.Finite? || f.value < 0.0 || f.value > MAX_UINT32 as real then Fail else Ok(Degenerate(f.value.Floor))
  }

  function ParseHeaderRange(v: Input): Result<Range> {
    match v
    case Nil => Ok(Range(0, 0))
    case OfRange(r) => Ok(r)
    case NilRange => Ok(Range(0, 0))
    case Text(s) => ParseString(s)
    case Signed(n) => ParseInt(n)
    case Unsigned(n) => ParseInt(n)
    case Uint32(n) => Ok(Degenerate(n))
    case Floating(f) => ParseFloat(f)
    case OtherType => Fail
  }

  // ---- the texts that denote a range ---------------------------------------

  /** A numeral with blanks around it. */
  predicate Denotes(s: string, n: nat) {
    TrimSpace(s) != "" && AllDigits(TrimSpace(s)) && Value(TrimSpace(s)) == n && n <= MAX_UINT32
  }

  /** Two numerals around the hyphen at i. */
  predicate IsPair(body: string, i: nat, r: Range) {
    i < |body| && body[i] == '-' && Denotes(body[..i], r.lo) && Denotes(body[i + 1..], r.hi)
  }

  /** Nothing, one numeral, or two numerals in order with a hyphen between; blanks and
      quotes around are ignored. */
  ghost predicate SpellsBody(body: string, r: Range) {
    || (TrimSpace(body) == "" && r == Range(0, 0))
    || (Denotes(body, r.lo) && r.lo == r.hi)
    || (r.lo <= r.hi && exists i :: IsPair(body, i, r))
  }

  ghost predicate Spells(val: string, r: Range) { SpellsBody(TrimQuotes(TrimSpace(val)), r) }

  lemma TrimLeftDrops(s: string, c: char)
    requires c in s && !IsSpace(c)
    ensures c in TrimLeft(s)
  {
    if IsSpace(s[0]) {
      assert s == [s[0]] + s[1..];
      TrimLeftDrops(s[1..], c);
    }
  }

  lemma TrimRightDrops(s: string, c: char)
    requires c in s && !IsSpace(c)
    ensures c in TrimRight(s)
  {
    if IsSpace(s[|s| - 1]) {
      assert s == s[..|s| - 1] + [s[|s| - 1]];
      TrimRightDrops(s[..|s| - 1], c);
    }
  }

  lemma TrimSpaceDrops(s: string, c: char)
    requires c in s && !IsSpace(c)
    ensures c in TrimSpace(s)
  {
    TrimLeftDrops(s, c);
    TrimRightDrops(TrimLeft(s), c);
  }

  /** A hyphen survives trimming, so a numeral with blanks has none. */
  lemma NumeralHasNoHyphen(s: string, n: nat)
    requires Denotes(s, n)
    ensures '-' !in s
  {
    if '-' in s {
      TrimSpaceDrops(s, '-');
    }
  }

  lemma BlankHasNoHyphen(s: string)
    requires TrimSpace(s) == ""
    ensures '-' !in s
  {
    if '-' in s { TrimSpaceDrops(s, '-'); }
  }

  lemma SplitOne(s: string, c: char)
    requires c !in s
    ensures Split(s, c) == [s]
  {
  }

  lemma FirstIndex(a: string, c: char, b: string)
    requires c !in a
    ensures IndexByte(a + [c] + b, c) == |a|
  {
    var s := a + [c] + b;
    if a != "" {
      assert s[1..] == a[1..] + [c] + b;
      FirstIndex(a[1..], c, b);
    }
  }

  lemma SplitTwo(a: string, c: char, b: string)
    requires c !in a && c !in b
    ensures Split(a + [c] + b, c) == [a, b]
  {
    var s := a + [c] + b;
    FirstIndex(a, c, b);
    assert s[..|a|] == a && s[|a| + 1..] == b;
    SplitOne(b, c);
  }

  /** One or two parts join to the text. */
  lemma SplitJoins(s: string, c: char)
    ensures |Split(s, c)| == 1 ==> s == Split(s, c)[0]
    ensures |Split(s, c)| == 2 ==> s == Split(s, c)[0] + [c] + Split(s, c)[1]
  {
    var i := IndexByte(s, c);
    if i >= 0 {
      assert s == s[..i] + [c] + s[i + 1..];
      var rest := s[i + 1..];
      if IndexByte(rest, c) >= 0 { assert |Split(rest, c)| >= 2; }
    }
  }

  lemma ParsedIsSpelled(val: string, r: Range)
    requires ParseString(val) == Ok(r)
    ensures Spells(val, r)
  {
    var str := TrimSpace(val);
    if str != "" {
      var body := TrimQuotes(str);
      var parts := Split(body, '-');
      SplitJoins(body, '-');
      if |parts| == 2 {
        var i := |parts[0]|;
        assert body[..i] == parts[0] && body[i + 1..] == parts[1];
        assert IsPair(body, i, r);
      }
    }
  }

  function ParseBody(body: string): Result<Range> { ParseParts(Split(body, '-')) }

  lemma BlankParses(body: string, r: Range)
    requires TrimSpace(body) == "" && r == Range(0, 0)
    ensures ParseBody(body) == Ok(r)
  {
    BlankHasNoHyphen(body);
    SplitOne(body, '-');
  }

  lemma NumeralParses(body: string, r: Range)
    requires Denotes(body, r.lo) && r.lo == r.hi
    ensures ParseBody(body) == Ok(r)
  {
    NumeralHasNoHyphen(body, r.lo);
    SplitOne(body, '-');
    assert ParseUint(TrimSpace(body)) == Ok(r.lo);
  }

  lemma SplitPair(body: string, i: nat)
    requires i < |body| && body[i] == '-' && '-' !in body[..i] && '-' !in body[i + 1..]
    ensures Split(body, '-') == [body[..i], body[i + 1..]]
  {
    assert body == body[..i] + ['-'] + body[i + 1..];
    SplitTwo(body[..i], '-', body[i + 1..]);
  }

  lemma NumeralReads(s: string, n: nat)
    requires Denotes(s, n)
    ensures ParseUint(TrimSpace(s)) == Ok(n) && '-' !in s
  {
    NumeralHasNoHyphen(s, n);
  }

  lemma NumeralsParse(a: string, b: string, r: Range)
    requires Denotes(a, r.lo) && Denotes(b, r.hi) && r.lo <= r.hi
    ensures ParseParts([a, b]) == Ok(r) && '-' !in a && '-' !in b
  {
    NumeralReads(a, r.lo);
    NumeralReads(b, r.hi);
  }

  lemma PairParses(body: string, i: nat, r: Range)
    requires IsPair(body, i, r) && r.lo <= r.hi
    ensures ParseBody(body) == Ok(r)
  {
    NumeralsParse(body[..i], body[i + 1..], r);
    SplitPair(body, i);
  }

  lemma BodyParses(body: string, r: Range)
    requires SpellsBody(body, r)
    ensures ParseBody(body) == Ok(r)
  {
    if i :| IsPair(body, i, r) && r.lo <= r.hi {
      PairParses(body, i, r);
    } else if Denotes(body, r.lo) {
      NumeralParses(body, r);
    } else {
      BlankParses(body, r);
    }
  }

  lemma SpelledIsParsed(val: string, r: Range)
    requires Spells(val, r)
    ensures ParseString(val) == Ok(r)
  {
    BodyParses(TrimQuotes(TrimSpace(val)), r);
    if TrimSpace(val) == "" { BlankParses("", r); }
  }

  /** The parser accepts exactly the texts that spell a range, with that range. */
  lemma ParseStringIff(val: string, r: Range)
    ensures ParseString(val) == Ok(r) <==> Spells(val, r)
  {
    if ParseString(val) == Ok(r) { ParsedIsSpelled(val, r); }
    if Spells(val, r) { SpelledIsParsed(val, r); }
  }

  // ---- round trips ---------------------------------------------------------

  lemma FormatDenotes(n: nat)
    requires n <= MAX_UINT32
    ensures Denotes(Format(n), n) && TrimSpace(Format(n)) == Format(n)
  {
    var s := Format(n);
    assert !IsSpace(s[0]) && !IsSpace(s[|s| - 1]);
    TrimSpaceKeeps(s);
    FormatValue(n);
  }

  lemma BareText(s: string)
    requires s != "" && IsDigit(s[0]) && IsDigit(s[|s| - 1])
    ensures TrimSpace(s) == s && TrimQuotes(s) == s
  {
    TrimSpaceKeeps(s);
  }

  lemma FormatsArePair(r: Range)
    requires r.Valid() && r.lo != r.hi
    ensures IsPair(r.String(), |Format(r.lo)|, r)
  {
    var s, i := r.String(), |Format(r.lo)|;
    assert s[..i] == Format(r.lo) && s[i + 1..] == Format(r.hi);
    FormatDenotes(r.lo);
    FormatDenotes(r.hi);
  }

  /** Parsing the text of a range gives the range back. */
  lemma TextRoundTrip(r: Range)
    requires r.Valid()
    ensures ParseString(r.String()) == Ok(r)
  {
    BareText(r.String());
    if r.lo != r.hi { FormatsArePair(r); } else { FormatDenotes(r.lo); }
    SpelledIsParsed(r.String(), r);
  }

  /** So different ranges have different texts. */
  lemma TextIsInjective(a: Range, b: Range)
    requires a.Valid() && b.Valid() && a.String() == b.String()
    ensures a == b
  {
    TextRoundTrip(a);
    TextRoundTrip(b);
  }

  /** An accepted text is brought to its normal form by printing. */
  lemma AcceptedTextNormalizes(val: string, r: Range)
    requires ParseString(val) == Ok(r)
    ensures r.Valid() && ParseString(r.String()) == Ok(r)
  {
    ParsedIsSpelled(val, r);
    TextRoundTrip(r);
  }

  // ---- accepted values -----------------------------------------------------

  /** Whatever is accepted is a valid range, unless it was a range to begin with: that one
      is passed on unchecked. */
  lemma AcceptedIsValidIff(v: Input, r: Range)
    requires ParseHeaderRange(v) == Ok(r)
    requires v.Uint32? ==> v.w <= MAX_UINT32
    ensures r.Valid() <==> !v.OfRange? || v.r.Valid()
  {
    if v.Text? { AcceptedTextNormalizes(v.s, r); }
  }

  /** An integer is accepted exactly in the 32-bit range, and means itself. */
  lemma IntegerMeansItself(n: int)
    ensures ParseHeaderRange(Signed(n)).Ok? <==> 0 <= n <= MAX_UINT32
    ensures ParseHeaderRange(Signed(n)).Ok? ==>
              forall v: nat :: ParseHeaderRange(Signed(n)).value.Contains(v) <==> v == n
  {
  }

  /** A float is accepted exactly in the 32-bit range, and is rounded down. */
  lemma FloatIsRoundedDown(f: Float)
    ensures ParseHeaderRange(Floating(f)).Ok? <==> f.Finite? && 0.0 <= f.value <= MAX_UINT32 as real
    ensures ParseHeaderRange(Floating(f)).Ok? ==>
              forall v: nat :: ParseHeaderRange(Floating(f)).value.Contains(v) <==> v as real <= f.value < v as real + 1.0
  {
  }

  // ---- JSON ----------------------------------------------------------------

  /** encoding/json on a document: as a string, an int64, a float64, or an object with the
      fields lo and hi. */
  datatype Json = Json(text: string -> Option<string>, integer: string -> Option<int>,
                       number: string -> Option<Float>, bounds: string -> Option<(int, int)>)

  function Quoted(s: string): string { "\"" + s + "\"" }

  predicate IsPlain(s: string) { forall i :: 0 <= i < |s| ==> IsDigit(s[i]) || s[i] == '-' }

  /** What is needed of it: quotes around digits and hyphens come off again. */
  ghost predicate ReadsPlainText(json: Json) {
    forall s {:trigger Quoted(s)} :: IsPlain(s) ==> json.text(Quoted(s)) == Some(s)
  }

  /** json.Marshal of a text of digits and hyphens. */
  function MarshalJSON(r: Range): string { Quoted(r.String()) }

  predicate IsQuoted(s: string) { s != "" && s[0] == '"' && s[|s| - 1] == '"' }

  /** What a document is taken for. */
  datatype Document = Empty | Str(s: string) | Integer(n: int) | Number(f: Float) | Bounds(lo: int, hi: int) | Malformed

  function Unmarshal(json: Json, data: string): Result<Range> { Meaning(Read(json, data, TrimSpace(data))) }

  /** `s` is the trimmed document; one that is nothing else is parsed as it stands. */
  function Read(json: Json, data: string, s: string): Document {
    if s == "" || s == "null" then Empty
    else if IsQuoted(s) then if json.text(data).Some? then Str(json.text(data).value) else Malformed
    else if json.integer(data).Some? then Integer(json.integer(data).value)
    else if json.number(data).Some? then Number(json.number(data).value)
    else if json.bounds(data).Some? && json.bounds(data).value != (0, 0) then
      Bounds(json.bounds(data).value.0, json.bounds(data).value.1)
    else Str(s)
  }

  function Meaning(d: Document): Result<Range> {
    match d
    case Empty => Ok(Range(0, 0))
    case Str(s) => ParseString(s)
    case Integer(n) => ParseInt(n)
    case Number(f) => ParseFloat(f)
    case Bounds(lo, hi) =>
      if lo < 0 || lo > MAX_UINT32 || hi < 0 || hi > MAX_UINT32 || hi < lo then Fail else Ok(Range(lo, hi))
    case Malformed => Fail
  }

  /** Unmarshalling what was marshalled gives the range back. */
  lemma JsonRoundTrip(json: Json, r: Range)
    requires ReadsPlainText(json) && r.Valid()
    ensures Unmarshal(json, MarshalJSON(r)) == Ok(r)
  {
    var s := r.String();
    QuotedReadsBack(json, s);
    TextRoundTrip(r);
  }

  lemma QuotedReadsBack(json: Json, s: string)
    requires ReadsPlainText(json) && IsPlain(s)
    ensures Read(json, Quoted(s), TrimSpace(Quoted(s))) == Str(s)
  {
    TrimSpaceKeeps(Quoted(s));
  }

  lemma ParsedIsValid(s: string)
    ensures ParseString(s).Ok? ==> ParseString(s).value.Valid()
  {
    if ParseString(s).Ok? { AcceptedTextNormalizes(s, ParseString(s).value); }
  }

  /** Every accepted document yields a valid range. */
  lemma UnmarshalledIsValid(json: Json, data: string)
    ensures Unmarshal(json, data).Ok? ==> Unmarshal(json, data).value.Valid()
  {
    MeaningIsValid(Read(json, data, TrimSpace(data)));
  }

  lemma MeaningIsValid(d: Document)
    ensures Meaning(d).Ok? ==> Meaning(d).value.Valid()
  {
    if d.Str? { ParsedIsValid(d.s); }
  }

  lemma {:induction false} QuotesComeOffTheEnd(s: string)
    requires s != "" && s[0] == '{'
    ensures var body := TrimQuotes(s); body != "" && body[0] == '{'
    decreases |s|
  {
    if s[|s| - 1] == '"' { QuotesComeOffTheEnd(s[..|s| - 1]); }
  }

  lemma BraceBeginsNoNumeral(s: string, n: nat)
    requires s != "" && s[0] == '{'
    ensures TrimSpace(s) != "" && !Denotes(s, n)
  {
    assert TrimLeft(s) == s;
    TrimRightDrops(s, '{');
  }

  lemma BraceIsNotSpelled(s: string, r: Range)
    requires s != "" && s[0] == '{'
    ensures !SpellsBody(s, r)
  {
    BraceBeginsNoNumeral(s, r.lo);
    forall i: nat ensures !IsPair(s, i, r) {
      if 0 < i < |s| { BraceBeginsNoNumeral(s[..i], r.lo); }
    }
  }

  lemma BraceIsNotParsed(s: string)
    requires s != "" && s[0] == '{' && TrimSpace(s) == s
    ensures ParseString(s) == Fail
  {
    QuotesComeOffTheEnd(s);
    if ParseString(s).Ok? {
      ParsedIsSpelled(s, ParseString(s).value);
      BraceIsNotSpelled(TrimQuotes(s), ParseString(s).value);
    }
  }

  /** An object document with both bounds is accepted exactly when they are in order, in the
      32-bit range, and not both zero: the zero range has no object form. */
  lemma ObjectIsAcceptedIff(json: Json, data: string, lo: int, hi: int)
    requires data != "" && data[0] == '{' && TrimSpace(data) == data && data[|data| - 1] != '"'
    requires json.integer(data).None? && json.number(data).None? && json.bounds(data) == Some((lo, hi))
    ensures Unmarshal(json, data).Ok? <==> 0 <= lo <= hi <= MAX_UINT32 && hi > 0
    ensures Unmarshal(json, data).Ok? ==> Unmarshal(json, data).value == Range(lo, hi)
  {
    BraceIsNotParsed(data);
  }

  /** A bare number is accepted exactly in the 32-bit domain, and means what it means as a
      value; an empty document and null are the zero range. */
  lemma BareDocuments(json: Json, data: string)
    requires !IsQuoted(TrimSpace(data))
    ensures TrimSpace(data) == "" || TrimSpace(data) == "null" ==> Unmarshal(json, data) == Ok(Range(0, 0))
    ensures TrimSpace(data) != "" && TrimSpace(data) != "null" && json.integer(data).Some? ==>
              var n := json.integer(data).value;
              Unmarshal(json, data) == if 0 <= n <= 0xffff_ffff then Ok(Range(n, n)) else Fail
    ensures TrimSpace(data) != "" && TrimSpace(data) != "null" && json.integer(data).None? && json.number(data).Some? ==>
              Unmarshal(json, data) == ParseHeaderRange(Floating(json.number(data).value))
  {
  }

  /** The receiver of UnmarshalJSON. */
  class Field {
    var range: Range

    constructor ()
      ensures range == Range(0, 0)
    {
      range := Range(0, 0);
    }

    method UnmarshalJSON(json: Json, data: string) returns (ok: bool)
      modifies this
      ensures ok <==> Unmarshal(json, data).Ok?
      ensures range == if ok then Unmarshal(json, data).value else old(range)
      ensures old(range.Valid()) ==> range.Valid()
    {
      UnmarshalledIsValid(json, data);
      ok := UnmarshalTrimmed(json, data, TrimSpace(data));
    }

    /** Everything after the trimming. */
    method UnmarshalTrimmed(json: Json, data: string, s: string) returns (ok: bool)
      modifies this
      ensures ok <==> Meaning(Read(json, data, s)).Ok?
      ensures range == if ok then Meaning(Read(json, data, s)).value else old(range)
    {
      if s == "" || s == "null" {
        range := Range(0, 0);
        return true;
      }
      if IsQuoted(s) {
        var str := json.text(data);
        if str.None? {
          return false;
        }
        ok := SetParsed(ParseString(str.value));
        return;
      }
      var n := json.integer(data);
      if n.Some? {
        ok := SetParsed(ParseInt(n.value));
        return;
      }
      var f := json.number(data);
      if f.Some? {
        ok := SetParsed(ParseFloat(f.value));
        return;
      }
      var obj := json.bounds(data);
      if obj.Some? && (obj.value.0 != 0 || obj.value.1 != 0) {
        var (lo, hi) := obj.value;
        if lo < 0 || lo > MAX_UINT32 || hi < 0 || hi > MAX_UINT32 || hi < lo {
          return false;
        }
        range := Range(lo, hi);
        return true;
      }
      ok := SetParsed(ParseString(s));
    }

    method SetParsed(parsed: Result<Range>) returns (ok: bool)
      modifies this
      ensures ok <==> parsed.Ok?
      ensures range == if ok then parsed.value else old(range)
    {
      ok := parsed.Ok?;
      if ok {
        range := parsed.value;
      }
    }
  }

  // ---- picking a value -----------------------------------------------------

  datatype Picked = Picked(n: nat) | Panics

  /** The width is computed in 32 bits; `draw` is rand.Int, which panics on a width of 0
      and may fail otherwise. */
  function PickOne(r: Range, draw: nat -> Option<nat>): Picked
    requires r.Fits()
  {
    if r.lo >= r.hi then Picked.Picked(r.lo)
    else
      var width := (r.hi - r.lo + 1) % (MAX_UINT32 + 1);
      if width == 0 then Panics
      else match draw(width)
        case None => Picked.Picked(r.lo)
        case Some(n) => Picked.Picked((r.lo + n) % (MAX_UINT32 + 1))
  }

  /** It picks a value of the range exactly when the range is not the whole 32-bit domain,
      whose width wraps to 0. */
  lemma PickOneIff(r: Range, draw: nat -> Option<nat>)
    requires r.Valid()
    requires forall width :: width > 0 && draw(width).Some? ==> draw(width).value < width
    ensures (PickOne(r, draw).Picked? && r.Contains(PickOne(r, draw).n)) <==> r != Range(0, MAX_UINT32)
  {
    if r.lo < r.hi && r != Range(0, MAX_UINT32) {
      assert 0 < r.hi - r.lo + 1 < MAX_UINT32 + 1;
    }
  }
}
