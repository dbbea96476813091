/** internal/policy/domain.go. Names that hold a non-ASCII character or an "xn--" label go
    through the IDNA library, which is a parameter. */
module Domain {
  import opened Options
  import opened Decimal
  import opened Netip

  // ---- strings as the Go library sees them ---------------------------------

  predicate IsSpace(c: char) {
    || '\t' <= c <= '\r' || c == ' '
    || c == '\U{85}' || c == '\U{A0}' || c == '\U{1680}'
    || '\U{2000}' <= c <= '\U{200A}'
    || c == '\U{2028}' || c == '\U{2029}' || c == '\U{202F}' || c == '\U{205F}' || c == '\U{3000}'
  }

  function TrimLeft(s: string): (r: string)
    ensures r != "" ==> !IsSpace(r[0])
    ensures exists i :: 0 <= i <= |s| && r == s[i..]
  {
    if s != "" && IsSpace(s[0]) then
      var r := TrimLeft(s[1..]);
      var i :| 0 <= i <= |s[1..]| && r == s[1..][i..];
      assert r == s[i + 1..];
      r
    else
      assert s == s[0..];
      s
  }

  function TrimRight(s: string): (r: string)
    ensures r <= s && (r != "" ==> !IsSpace(r[|r| - 1]))
  {
    if s != "" && IsSpace(s[|s| - 1]) then TrimRight(s[..|s| - 1]) else s
  }

  function TrimSpace(s: string): string { TrimRight(TrimLeft(s)) }

  function LowerChar(c: char): char {
    if 'A' <= c <= 'Z' then ((c as int) + 32) as char else c
  }

  /** strings.ToLower on ASCII text. */
  function ToLower(s: string): (r: string)
    ensures |r| == |s| && forall i :: 0 <= i < |s| ==> r[i] == LowerChar(s[i])
  {
    seq(|s|, i requires 0 <= i < |s| => LowerChar(s[i]))
  }

  predicate PartAt(s: string, part: string, i: int) {
    0 <= i <= |s| - |part| && s[i..i + |part|] == part
  }

  predicate Contains(s: string, part: string) {
    exists i | 0 <= i <= |s| :: PartAt(s, part, i)
  }

  predicate ContainsAny(s: string, chars: string) {
    exists i :: 0 <= i < |s| && s[i] in chars
  }

  function TrimDot(s: string): (r: string)
    ensures r <= s
  {
    if s != "" && s[|s| - 1] == '.' then s[..|s| - 1] else s
  }

  /** strings.IndexByte. */
  function IndexByte(s: string, c: char): (i: int)
    ensures -1 <= i < |s|
    ensures i >= 0 ==> s[i] == c && c !in s[..i]
    ensures i < 0 ==> c !in s
  {
    if s == "" then -1
    else if s[0] == c then 0
    else
      var i := IndexByte(s[1..], c);
      assert s == [s[0]] + s[1..];
      if i < 0 then -1
      else
        assert s[..i + 1] == [s[0]] + s[1..][..i];
        i + 1
  }

  function Split(s: string, c: char): (parts: seq<string>)
    ensures |parts| > 0
  {
    var i := IndexByte(s, c);
    if i < 0 then [s] else [s[..i]] + Split(s[i + 1..], c)
  }

  // ---- NormalizeDomain -----------------------------------------------------

  const FORBIDDEN := " \t\r\n/:?#@\\_"

  predicate IsAscii(s: string) { forall c :: c in s ==> c as int <= 127 }

  predicate AsciiPath(s: string) { IsAscii(s) && !Contains(ToLower(s), "xn--") }

  predicate IsLDH(c: char) { 'a' <= c <= 'z' || IsDigit(c) || c == '-' }

  predicate ValidLabel(l: string) {
    && 1 <= |l| <= 63
    && l[0] != '-' && l[|l| - 1] != '-'
    && forall c :: c in l ==> IsLDH(c)
  }

  /** One field of a dotted quad as netip.ParseAddr accepts it: no sign, no leading
      zero, at most 255. */
  predicate IsOctet(l: string) {
    && 1 <= |l| <= 3
    && AllDigits(l)
    && (l[0] == '0' ==> |l| == 1)
    && Value(l) <= 255
  }

  /** The only address literals that can be made of letters, digits, hyphens and dots. */
  predicate IsIPv4Literal(labels: seq<string>) {
    |labels| == 4 && forall l :: l in labels ==> IsOctet(l)
  }

  /** A canonical name: 1 to 253 octets of valid labels, not an address literal. */
  predicate IsCanonical(a: string) {
    && 1 <= |a| <= 253
    && (forall l :: l in Split(a, '.') ==> ValidLabel(l))
    && !IsIPv4Literal(Split(a, '.'))
  }

  datatype Normalized = Canonical(name: string) | Rejected

  /** What ToASCII of the IDNA profile answers. */
  type Idna = string -> Option<string>

  function Mapped(idna: Idna, n: string): Option<string> { if AsciiPath(n) then Some(n) else idna(n) }

  function Normalize(idna: Idna, name: string): Normalized {
    var n := TrimSpace(name);
    if n == "" || ContainsAny(n, FORBIDDEN) || Contains(n, "..") then Rejected
    else match Mapped(idna, n)
      case None => Rejected
      case Some(mapped) =>
        var a := ToLower(TrimDot(mapped));
        if IsCanonical(a) then Canonical(a) else Rejected
  }

  method ValidateLabel(l: string) returns (ok: bool)
    ensures ok <==> ValidLabel(l)
  {
    if |l| == 0 || |l| > 63 {
      return false;
    }
    if l[0] == '-' || l[|l| - 1] == '-' {
      return false;
    }
    for i := 0 to |l|
      invariant forall j :: 0 <= j < i ==> IsLDH(l[j])
    {
      var c := l[i];
      if !(('a' <= c <= 'z') || ('0' <= c <= '9') || c == '-') {
        assert c in l;
        return false;
      }
    }
    ok := true;
  }

  method ValidateLabels(labels: seq<string>) returns (ok: bool)
    ensures ok <==> forall l :: l in labels ==> ValidLabel(l)
  {
    for i := 0 to |labels|
      invariant forall j :: 0 <= j < i ==> ValidLabel(labels[j])
    {
      ok := ValidateLabel(labels[i]);
      if !ok {
        assert labels[i] in labels;
        return;
      }
    }
    ok := true;
  }

  /** NormalizeDomain; the loops over labels and bytes are the two methods above. */
  method NormalizeDomain(idna: Idna, raw: string) returns (r: Normalized)
    ensures r == Normalize(idna, raw)
  {
    var name := TrimSpace(raw);
    if name == "" {
      return Rejected;
    }
    if ContainsAny(name, FORBIDDEN) {
      return Rejected;
    }
    if Contains(name, "..") {
      return Rejected;
    }
    var a := name;
    if !IsAscii(name) || Contains(ToLower(name), "xn--") {
      var mapped := idna(name);
      if mapped.None? {
        return Rejected;
      }
      a := mapped.value;
    }
    r := CheckName(ToLower(TrimDot(a)));
  }

  /** The checks on the mapped name. */
  method CheckName(a: string) returns (r: Normalized)
    ensures r == if IsCanonical(a) then Canonical(a) else Rejected
  {
    if a == "" || |a| > 253 {
      return Rejected;
    }
    var labels := Split(a, '.');
    var valid := ValidateLabels(labels);
    if !valid {
      return Rejected;
    }
    if IsIPv4Literal(labels) {
      return Rejected;
    }
    return Canonical(a);
  }

  // ---- what normalisation promises -----------------------------------------

  predicate NameChar(c: char) { IsLDH(c) || c == '.' }

  /** LDH characters, and single dots strictly inside. */
  predicate Shaped(a: string) {
    && a != "" && a[0] != '.' && a[|a| - 1] != '.'
    && (forall i :: 0 <= i < |a| ==> NameChar(a[i]))
    && (forall i :: 0 <= i < |a| - 1 && a[i] == '.' ==> a[i + 1] != '.')
  }

  lemma LabelIsShaped(l: string)
    requires ValidLabel(l)
    ensures Shaped(l)
  {
    assert forall i :: 0 <= i < |l| ==> l[i] in l && IsLDH(l[i]) && l[i] != '.';
  }

  lemma JoinIsShaped(l: string, rest: string, a: string)
    requires Shaped(l) && Shaped(rest) && a == l + "." + rest
    ensures Shaped(a)
  {
    var n := |l|;
    assert a[n] == '.';
    assert forall i :: 0 <= i < n ==> a[i] == l[i];
    assert forall i :: n < i < |a| ==> a[i] == rest[i - n - 1];
  }

  lemma {:induction false} LabelsShapeName(a: string)
    requires forall l :: l in Split(a, '.') ==> ValidLabel(l)
    ensures Shaped(a)
    decreases |a|
  {
    var i := IndexByte(a, '.');
    var parts := Split(a, '.');
    LabelIsShaped(parts[0]);
    if i >= 0 {
      var rest := a[i + 1..];
      assert forall l :: l in Split(rest, '.') ==> l in parts;
      LabelsShapeName(rest);
      JoinIsShaped(a[..i], rest, a);
    }
  }

  lemma TrimSpaceKeeps(a: string)
    requires a != "" ==> !IsSpace(a[0]) && !IsSpace(a[|a| - 1])
    ensures TrimSpace(a) == a
  {
  }

  lemma LowerKeeps(a: string)
    requires forall i :: 0 <= i < |a| ==> NameChar(a[i])
    ensures ToLower(a) == a
  {
  }

  lemma ForbiddenAreNotLDH()
    ensures forall c :: c in FORBIDDEN ==> !IsLDH(c) && c != '.'
  {
    assert FORBIDDEN == [' ', '\t', '\r', '\n', '/', ':', '?', '#', '@', '\\', '_'];
  }

  /** Canonical text is trimmed, lower-case and free of anything refused. */
  lemma CanonicalIsClean(a: string)
    requires IsCanonical(a)
    ensures TrimSpace(a) == a && TrimDot(a) == a && ToLower(a) == a && IsAscii(a)
    ensures !ContainsAny(a, FORBIDDEN) && !Contains(a, "..")
  {
    LabelsShapeName(a);
    TrimSpaceKeeps(a);
    LowerKeeps(a);
    NoForbidden(a);
    NoDoubleDot(a);
  }

  lemma NoForbidden(a: string)
    requires forall i :: 0 <= i < |a| ==> NameChar(a[i])
    ensures !ContainsAny(a, FORBIDDEN) && IsAscii(a)
  {
    ForbiddenAreNotLDH();
  }

  /** The library leaves its own answer alone, up to case and a final dot. */
  predicate Keeps(idna: Idna, a: string) { idna(a).Some? && ToLower(TrimDot(idna(a).value)) == a }

  /** The fixed points are exactly the canonical names, those with an IDNA label as far as
      the library keeps them. */
  lemma FixedPointIff(idna: Idna, a: string)
    ensures Normalize(idna, a) == Canonical(a) <==> IsCanonical(a) && (Contains(a, "xn--") ==> Keeps(idna, a))
  {
    if IsCanonical(a) {
      CanonicalIsClean(a);
    }
  }

  lemma NoDoubleDot(a: string)
    requires forall i :: 0 <= i < |a| - 1 && a[i] == '.' ==> a[i + 1] != '.'
    ensures !Contains(a, "..")
  {
    forall i | 0 <= i <= |a| ensures !PartAt(a, "..", i) {
      if i <= |a| - 2 {
        assert a[i..i + 2][0] == a[i] && a[i..i + 2][1] == a[i + 1];
      }
    }
  }

  /** A part of a shorter text is a part of the longer one. */
  lemma ContainsPrefix(s: string, t: string, part: string)
    requires s <= t && Contains(s, part)
    ensures Contains(t, part)
  {
    var i :| 0 <= i <= |s| && PartAt(s, part, i);
    assert t[i..i + |part|] == s[i..i + |part|];
    assert PartAt(t, part, i);
  }

  /** Normalising is idempotent, so rule bases and queries meet in the same form: always
      off the IDNA path, and on it exactly when the library keeps its own answer. */
  lemma NormalizeIsFixedPoint(idna: Idna, name: string)
    requires Normalize(idna, name).Canonical?
    ensures var a := Normalize(idna, name).name;
            && IsCanonical(a)
            && (Normalize(idna, a) == Canonical(a) <==> AsciiPath(TrimSpace(name)) || !Contains(a, "xn--") || Keeps(idna, a))
  {
    var n := TrimSpace(name);
    var a := Normalize(idna, name).name;
    if AsciiPath(n) { AsciiStays(n); }
    FixedPointIff(idna, a);
  }

  /** Off the IDNA path no "xn--" comes in. */
  lemma AsciiStays(n: string)
    requires AsciiPath(n)
    ensures !Contains(ToLower(TrimDot(n)), "xn--")
  {
    var a := ToLower(TrimDot(n));
    assert a <= ToLower(n);
    if Contains(a, "xn--") {
      ContainsPrefix(a, ToLower(n), "xn--");
    }
  }

  // ---- ParseDomainRule -----------------------------------------------------

  /** The flag byte, bit by bit: bit 0 exact, bit 1 inclusive suffix, bit 2 descendants. */
  datatype Flags = Flags(exact: bool, inclusive: bool, descendants: bool) {
    /** The bitwise or. */
    function Or(other: Flags): Flags {
      Flags(exact || other.exact, inclusive || other.inclusive, descendants || other.descendants)
    }
  }

  const NO_FLAGS := Flags(false, false, false)
  const EXACT := Flags(true, false, false)
  const INCLUSIVE := Flags(false, true, false)
  const DESCENDANTS := Flags(false, false, true)

  datatype DomainMode = ModeExact | ModeInclusiveSuffix

  datatype ParsedRule = DomainRule(base: string, flags: Flags) | IPRule(addr: Addr) | BadRule

  function WithBase(idna: Idna, raw: string, flags: Flags): ParsedRule {
    match Normalize(idna, raw)
    case Canonical(base) => DomainRule(base, flags)
    case Rejected => BadRule
  }

  predicate BadBase(s: string) {
    s == "" || s[0] == '*' || s[0] == '.' || '*' in s
  }

  /** `literal` is what netip.ParseAddr makes of the trimmed rule, NoAddr if it fails. */
  function ParseDomainRule(idna: Idna, rawRule: string, mode: DomainMode, literal: Addr): ParsedRule {
    ParseTrimmed(idna, TrimSpace(rawRule), mode, literal)
  }

  function ParseTrimmed(idna: Idna, raw: string, mode: DomainMode, literal: Addr): ParsedRule {
    if raw == "" then BadRule
    else if literal != NoAddr then
      if literal.Unmap().V4? then IPRule(literal.Unmap()) else BadRule
    else match Stripped(raw, mode)
      case None => BadRule
      case Some((body, flags)) => WithBase(idna, body, flags)
  }

  /** A rule without its prefix, and what the prefix says; none if it is malformed. */
  function Stripped(raw: string, mode: DomainMode): Option<(string, Flags)> {
    if "*." <= raw then
      if BadBase(raw[2..]) then None else Some((raw[2..], DESCENDANTS))
    else if "." <= raw then
      if BadBase(raw[1..]) then None else Some((raw[1..], INCLUSIVE))
    else if '*' in raw then None
    else Some((raw, if mode == ModeInclusiveSuffix then INCLUSIVE else EXACT))
  }

  // ---- what a rule covers --------------------------------------------------

  /** name lies strictly below base: base preceded by a dot and something. */
  predicate IsBelow(name: string, base: string) {
    && |name| > |base|
    && name[|name| - |base|..] == base
    && name[|name| - |base| - 1] == '.'
  }

  predicate RuleCovers(base: string, flags: Flags, name: string) {
    || (name == base && (flags.exact || flags.inclusive))
    || (IsBelow(name, base) && (flags.descendants || flags.inclusive))
  }

  /** The rule without its prefix. */
  function Body(text: string): string {
    if "*." <= text then text[2..] else if "." <= text then text[1..] else text
  }

  /** A domain rule is accepted exactly when it is no address literal and its body has no
      asterisk, does not begin with a dot, and normalizes. */
  lemma RuleAcceptedIff(idna: Idna, raw: string, mode: DomainMode, literal: Addr)
    ensures var text, r := TrimSpace(raw), ParseDomainRule(idna, raw, mode, literal);
            && (r.DomainRule? <==> literal == NoAddr && '*' !in Body(text) && !("." <= Body(text))
                                   && Normalize(idna, Body(text)).Canonical?)
            && (r.IPRule? <==> text != "" && literal != NoAddr && literal.Unmap().V4?)
            && (r.IPRule? ==> r.addr == literal.Unmap())
  {
    TrimmedAcceptedIff(idna, TrimSpace(raw), mode, literal);
  }

  lemma TrimmedAcceptedIff(idna: Idna, text: string, mode: DomainMode, literal: Addr)
    ensures var r := ParseTrimmed(idna, text, mode, literal);
            && (r.DomainRule? <==> literal == NoAddr && '*' !in Body(text) && !("." <= Body(text))
                                   && Normalize(idna, Body(text)).Canonical?)
            && (r.IPRule? <==> text != "" && literal != NoAddr && literal.Unmap().V4?)
            && (r.IPRule? ==> r.addr == literal.Unmap())
  {
    EmptyIsRejected(idna);
    if text != "" && literal == NoAddr { BodyAcceptedIff(idna, text, mode); }
  }

  lemma BodyAcceptedIff(idna: Idna, text: string, mode: DomainMode)
    requires text != ""
    ensures var r := ParseTrimmed(idna, text, mode, NoAddr);
            !r.IPRule? && (r.DomainRule? <==> '*' !in Body(text) && !("." <= Body(text)) && Normalize(idna, Body(text)).Canonical?)
  {
    StrippedIff(text, mode);
    if Body(text) == "" { EmptyIsRejected(idna); }
    if Stripped(text, mode).Some? {
      WithBaseIff(idna, Body(text), Stripped(text, mode).value.1);
    }
  }

  lemma StrippedIff(text: string, mode: DomainMode)
    requires text != ""
    ensures Stripped(text, mode).Some? <==> Body(text) != "" && '*' !in Body(text) && !("." <= Body(text))
    ensures Stripped(text, mode).Some? ==> Stripped(text, mode).value.0 == Body(text)
  {
  }

  lemma WithBaseIff(idna: Idna, raw: string, flags: Flags)
    ensures !WithBase(idna, raw, flags).IPRule?
    ensures WithBase(idna, raw, flags).DomainRule? <==> Normalize(idna, raw).Canonical?
  {
  }

  lemma EmptyIsRejected(idna: Idna)
    ensures Normalize(idna, "") == Rejected
  {
    assert TrimSpace("") == "";
  }

  /** An accepted rule has the canonical name of its body as base, and covers what its
      spelling says: "*.b" only names below b, ".b" also b, bare b what the list's mode says. */
  lemma RuleMeaning(idna: Idna, raw: string, mode: DomainMode, literal: Addr, name: string)
    requires ParseDomainRule(idna, raw, mode, literal).DomainRule?
    ensures var text, r := TrimSpace(raw), ParseDomainRule(idna, raw, mode, literal);
            && IsCanonical(r.base) && Normalize(idna, Body(text)) == Canonical(r.base)
            && (RuleCovers(r.base, r.flags, name) <==>
                  if "*." <= text then IsBelow(name, r.base)
                  else if "." <= text || mode == ModeInclusiveSuffix then name == r.base || IsBelow(name, r.base)
                  else name == r.base)
  {
    TrimmedMeaning(idna, TrimSpace(raw), mode, literal, name);
  }

  lemma TrimmedMeaning(idna: Idna, text: string, mode: DomainMode, literal: Addr, name: string)
    requires ParseTrimmed(idna, text, mode, literal).DomainRule?
    ensures var r := ParseTrimmed(idna, text, mode, literal);
            && IsCanonical(r.base) && Normalize(idna, Body(text)) == Canonical(r.base)
            && (RuleCovers(r.base, r.flags, name) <==>
                  if "*." <= text then IsBelow(name, r.base)
                  else if "." <= text || mode == ModeInclusiveSuffix then name == r.base || IsBelow(name, r.base)
                  else name == r.base)
  {
    var r := ParseTrimmed(idna, text, mode, literal);
    RuleOfStripped(idna, text, mode, literal);
    NormalizeIsFixedPoint(idna, Body(text));
    StrippedCovers(text, mode, r.base, name);
  }

  lemma RuleOfStripped(idna: Idna, text: string, mode: DomainMode, literal: Addr)
    requires ParseTrimmed(idna, text, mode, literal).DomainRule?
    ensures var r := ParseTrimmed(idna, text, mode, literal);
            Stripped(text, mode) == Some((Body(text), r.flags)) && Normalize(idna, Body(text)) == Canonical(r.base)
  {
    StrippedIff(text, mode);
  }

  lemma StrippedCovers(text: string, mode: DomainMode, base: string, name: string)
    requires Stripped(text, mode).Some?
    ensures RuleCovers(base, Stripped(text, mode).value.1, name) <==>
              if "*." <= text then IsBelow(name, base)
              else if "." <= text || mode == ModeInclusiveSuffix then name == base || IsBelow(name, base)
              else name == base
  {
    FlagMeaning(base, name);
  }

  lemma FlagMeaning(base: string, name: string)
    ensures RuleCovers(base, EXACT, name) <==> name == base
    ensures RuleCovers(base, INCLUSIVE, name) <==> name == base || IsBelow(name, base)
    ensures RuleCovers(base, DESCENDANTS, name) <==> IsBelow(name, base)
  {
  }

  /** Or-ing flags unions what the two rules cover. */
  lemma FlagsUnion(base: string, f: Flags, g: Flags, name: string)
    ensures RuleCovers(base, f.Or(g), name) <==> RuleCovers(base, f, name) || RuleCovers(base, g, name)
  {
  }
}
