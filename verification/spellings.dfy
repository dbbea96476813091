/** How a name may be written: blanks around it, capitals, and a final dot are no part of
    it. Independent of the steps of normalization. */
module Spellings {
  import opened Options
  import opened Domain

  // ---- trimming ------------------------------------------------------------

  predicate Blank(s: string) { forall i :: 0 <= i < |s| ==> IsSpace(s[i]) }

  /** s is t with blanks before and after. */
  ghost predicate Padded(s: string, t: string) {
    exists i, j :: 0 <= i <= j <= |s| && PaddedAt(s, t, i, j)
  }

  predicate PaddedAt(s: string, t: string, i: int, j: int)
    requires 0 <= i <= j <= |s|
  {
    t == s[i..j] && Blank(s[..i]) && Blank(s[j..])
  }

  predicate Tight(t: string) { t != "" ==> !IsSpace(t[0]) && !IsSpace(t[|t| - 1]) }

  lemma {:induction false} TrimLeftAt(s: string, i: nat)
    requires i <= |s| && Blank(s[..i]) && (i < |s| ==> !IsSpace(s[i]))
    ensures TrimLeft(s) == s[i..]
  {
    if i > 0 {
      assert s[0] == s[..i][0];
      assert s[1..][..i - 1] == s[..i][1..];
      TrimLeftAt(s[1..], i - 1);
      assert s[1..][i - 1..] == s[i..];
    } else {
      assert s[0..] == s;
    }
  }

  lemma {:induction false} TrimRightAt(s: string, j: nat)
    requires j <= |s| && Blank(s[j..]) && (j > 0 ==> !IsSpace(s[j - 1]))
    ensures TrimRight(s) == s[..j]
    decreases |s|
  {
    var n := |s|;
    if j < n {
      assert s[n - 1] == s[j..][n - 1 - j];
      assert forall k :: 0 <= k < n - 1 - j ==> s[..n - 1][j..][k] == s[j..][k];
      TrimRightAt(s[..n - 1], j);
      assert s[..n - 1][..j] == s[..j];
    } else {
      assert s[..n] == s;
    }
  }

  lemma BlankBefore(s: string, k: nat)
    requires k < |s| && IsSpace(s[0]) && Blank(s[1..][..k])
    ensures Blank(s[..k + 1]) && s[1..][k..] == s[k + 1..]
  {
    assert s[..k + 1] == [s[0]] + s[1..][..k];
  }

  lemma {:induction false} TrimLeftBlank(s: string) returns (i: nat)
    ensures i <= |s| && TrimLeft(s) == s[i..] && Blank(s[..i])
  {
    if s != "" && IsSpace(s[0]) {
      var k := TrimLeftBlank(s[1..]);
      i := k + 1;
      BlankBefore(s, k);
    } else {
      i := 0;
      assert s[0..] == s;
    }
  }

  lemma {:induction false} TrimRightBlank(s: string) returns (j: nat)
    ensures j <= |s| && TrimRight(s) == s[..j] && Blank(s[j..])
    decreases |s|
  {
    var n := |s|;
    if s != "" && IsSpace(s[n - 1]) {
      j := TrimRightBlank(s[..n - 1]);
      assert s[..n - 1][..j] == s[..j];
      assert forall l :: 0 <= l < n - 1 - j ==> s[j..][l] == s[..n - 1][j..][l];
    } else {
      j := n;
      assert s[..n] == s;
    }
  }

  lemma CutIsPadded(s: string, i: nat, j: nat)
    requires i + j <= |s| && Blank(s[..i]) && Blank(s[i..][j..])
    ensures PaddedAt(s, s[i..][..j], i, i + j)
  {
    assert s[i..i + j] == s[i..][..j];
    assert s[i + j..] == s[i..][j..];
  }

  lemma TrimIsTight(s: string)
    ensures Tight(TrimSpace(s))
  {
    var r := TrimLeft(s);
    if TrimRight(r) != "" { assert TrimRight(r)[0] == r[0]; }
  }

  lemma TrimmedIsPadded(s: string)
    ensures Padded(s, TrimSpace(s)) && Tight(TrimSpace(s))
  {
    var i := TrimLeftBlank(s);
    var j := TrimRightBlank(s[i..]);
    CutIsPadded(s, i, j);
    TrimIsTight(s);
  }

  lemma BlankTrims(s: string)
    requires Blank(s)
    ensures TrimSpace(s) == ""
  {
    assert s[..|s|] == s;
    TrimLeftAt(s, |s|);
  }

  lemma BlankJoin(s: string, i: nat)
    requires i <= |s| && Blank(s[..i]) && Blank(s[i..])
    ensures Blank(s)
  {
    assert s == s[..i] + s[i..];
  }

  lemma CutTrims(s: string, i: nat, j: nat)
    requires i < j <= |s| && Blank(s[..i]) && Blank(s[j..]) && !IsSpace(s[i]) && !IsSpace(s[j - 1])
    ensures TrimSpace(s) == s[i..j]
  {
    TrimLeftAt(s, i);
    CutRight(s, TrimLeft(s), i, j);
  }

  lemma CutRight(s: string, r: string, i: nat, j: nat)
    requires i < j <= |s| && r == s[i..] && Blank(s[j..]) && !IsSpace(s[j - 1])
    ensures TrimRight(r) == s[i..j]
  {
    CutRest(s, i, j);
    TrimRightAt(r, j - i);
  }

  lemma CutRest(s: string, i: nat, j: nat)
    requires i < j <= |s|
    ensures s[i..][j - i..] == s[j..] && s[i..][..j - i] == s[i..j] && s[i..][j - i - 1] == s[j - 1]
  {
  }

  lemma PaddedTrims(s: string, t: string)
    requires Padded(s, t) && Tight(t)
    ensures TrimSpace(s) == t
  {
    var i, j :| 0 <= i <= j <= |s| && PaddedAt(s, t, i, j);
    if i == j {
      BlankJoin(s, i);
      BlankTrims(s);
    } else {
      CutTrims(s, i, j);
    }
  }

  /** Trimming removes the blanks around, all of them and nothing else. */
  lemma TrimSpaceIff(s: string, t: string)
    ensures TrimSpace(s) == t <==> Padded(s, t) && Tight(t)
  {
    TrimmedIsPadded(s);
    if Padded(s, t) && Tight(t) { PaddedTrims(s, t); }
  }

  // ---- capitals and the final dot ------------------------------------------

  /** t reads as a when A-Z are taken for a-z. */
  predicate Reads(t: string, a: string) {
    |t| == |a|
    && forall i :: 0 <= i < |t| ==> t[i] == a[i] || ('A' <= t[i] <= 'Z' && t[i] as int + 32 == a[i] as int)
  }

  predicate NoCapitals(a: string) { forall i :: 0 <= i < |a| ==> !('A' <= a[i] <= 'Z') }

  lemma LowerIff(t: string, a: string)
    requires NoCapitals(a)
    ensures ToLower(t) == a <==> Reads(t, a)
  {
    if Reads(t, a) {
      assert forall i :: 0 <= i < |t| ==> ToLower(t)[i] == a[i];
    }
  }

  /** t reads as a, or as a with a final dot. */
  predicate ReadsAs(t: string, a: string) { Reads(t, a) || Reads(t, a + ".") }

  /** s is the name with blanks around it, capitals in it, or a final dot. */
  ghost predicate Spells(s: string, a: string) {
    exists t :: Padded(s, t) && Tight(t) && ReadsAs(t, a)
  }

  lemma CanonicalIsPlain(a: string)
    requires IsCanonical(a)
    ensures Shaped(a) && NoCapitals(a) && NoCapitals(a + ".")
  {
    LabelsShapeName(a);
  }

  /** Undotting and lowering give a exactly from the texts that read as it. */
  lemma UndotLowerIff(t: string, a: string)
    requires a != "" && a[|a| - 1] != '.' && NoCapitals(a)
    ensures ToLower(TrimDot(t)) == a <==> ReadsAs(t, a)
  {
    var n := |t|;
    if t != "" && t[n - 1] == '.' {
      LowerIff(t[..n - 1], a);
      assert Reads(t, a + ".") <==> Reads(t[..n - 1], a) by {
        if Reads(t[..n - 1], a) {
          assert forall i :: 0 <= i < n - 1 ==> t[i] == t[..n - 1][i] && (a + ".")[i] == a[i];
        }
        if Reads(t, a + ".") {
          assert forall i :: 0 <= i < n - 1 ==> t[i] == t[..n - 1][i] && (a + ".")[i] == a[i];
        }
      }
    } else {
      LowerIff(t, a);
    }
  }

  // ---- a spelling has nothing that is refused ------------------------------

  lemma ReadsClean(t: string, b: string)
    requires Reads(t, b) && forall i :: 0 <= i < |b| ==> NameChar(b[i])
    ensures IsAscii(t) && !ContainsAny(t, FORBIDDEN)
  {
    ForbiddenAreNotLDH();
    assert forall c :: c in FORBIDDEN ==> !('A' <= c <= 'Z');
  }

  lemma ReadsDots(t: string, b: string)
    requires Reads(t, b) && forall i :: 0 <= i < |b| - 1 && b[i] == '.' ==> b[i + 1] != '.'
    requires forall i :: 0 <= i < |b| ==> NameChar(b[i])
    ensures !Contains(t, "..")
  {
    NoDoubleDot(t);
  }

  lemma SpellingIsClean(t: string, a: string)
    requires IsCanonical(a) && ReadsAs(t, a)
    ensures t != "" && IsAscii(t) && !ContainsAny(t, FORBIDDEN) && !Contains(t, "..")
  {
    CanonicalIsPlain(a);
    var b := if Reads(t, a) then a else a + ".";
    ReadsClean(t, b);
    ReadsDots(t, b);
  }

  lemma DottedContains(a: string, part: string)
    requires Contains(a + ".", part) && part != "" && part[|part| - 1] != '.'
    ensures Contains(a, part)
  {
    var b := a + ".";
    var i :| 0 <= i <= |b| && PartAt(b, part, i);
    assert b[i..i + |part|][|part| - 1] == b[i + |part| - 1];
    assert i + |part| <= |a|;
    assert a[i..i + |part|] == b[i..i + |part|];
    assert PartAt(a, part, i);
  }

  lemma SpellingIsOnAsciiPath(t: string, a: string)
    requires IsCanonical(a) && !Contains(a, "xn--") && ReadsAs(t, a)
    ensures AsciiPath(t)
  {
    SpellingIsClean(t, a);
    CanonicalIsPlain(a);
    if Reads(t, a) { LowerIff(t, a); } else { LowerIff(t, a + "."); }
    if Contains(a + ".", "xn--") { DottedContains(a, "xn--"); }
  }

  // ---- normalization -------------------------------------------------------

  /** Every spelling of a canonical name normalizes to it. */
  lemma SpellingNormalizes(idna: Idna, s: string, a: string)
    requires IsCanonical(a) && !Contains(a, "xn--") && Spells(s, a)
    ensures Normalize(idna, s) == Canonical(a)
  {
    var t :| Padded(s, t) && Tight(t) && ReadsAs(t, a);
    TrimSpaceIff(s, t);
    SpellingIsClean(t, a);
    SpellingIsOnAsciiPath(t, a);
    CanonicalIsPlain(a);
    UndotLowerIff(t, a);
  }

  /** And nothing else does, off the IDNA path. */
  lemma NormalizedIsSpelling(idna: Idna, s: string, a: string)
    requires AsciiPath(TrimSpace(s)) && Normalize(idna, s) == Canonical(a)
    ensures Spells(s, a)
  {
    var t := TrimSpace(s);
    TrimSpaceIff(s, t);
    CanonicalIsPlain(a);
    UndotLowerIff(t, a);
  }

  predicate ReadsAt(t: string, part: string, i: int) {
    0 <= i <= |t| - |part| && Reads(t[i..i + |part|], part)
  }

  /** The IDNA path is taken exactly by names with a character beyond ASCII, or with
      "xn--" in any case. */
  lemma AsciiPathIff(t: string)
    ensures AsciiPath(t) <==> (forall c :: c in t ==> c as int <= 127) && !exists i :: ReadsAt(t, "xn--", i)
  {
    var low := ToLower(t);
    forall i ensures PartAt(low, "xn--", i) <==> ReadsAt(t, "xn--", i) {
      if 0 <= i <= |t| - 4 {
        LowerIff(t[i..i + 4], "xn--");
        assert low[i..i + 4] == ToLower(t[i..i + 4]);
      }
    }
  }

  /** On it the library decides: a name without a refused character normalizes to a exactly
      when the library's answer reads as a. */
  lemma IdnaDecides(idna: Idna, s: string, a: string)
    requires var t := TrimSpace(s);
             t != "" && !ContainsAny(t, FORBIDDEN) && !Contains(t, "..") && !AsciiPath(t)
    ensures Normalize(idna, s) == Canonical(a)
            <==> IsCanonical(a) && idna(TrimSpace(s)).Some? && ReadsAs(idna(TrimSpace(s)).value, a)
  {
    if IsCanonical(a) && idna(TrimSpace(s)).Some? {
      CanonicalIsPlain(a);
      UndotLowerIff(idna(TrimSpace(s)).value, a);
    }
  }

  /** Holds a refused character or an empty label, or nothing at all. */
  predicate Unusable(t: string) {
    || t == ""
    || (exists i :: 0 <= i < |t| && t[i] in FORBIDDEN)
    || (exists i :: 0 < i < |t| && t[i - 1] == '.' == t[i])
  }

  lemma UnusableIsRefused(t: string)
    requires Unusable(t)
    ensures t == "" || ContainsAny(t, FORBIDDEN) || Contains(t, "..")
  {
    if i :| 0 < i < |t| && t[i - 1] == '.' == t[i] {
      assert t[i - 1..i + 1] == "..";
      assert PartAt(t, "..", i - 1);
    }
  }

  /** That is rejected on either path. */
  lemma RefusedIsRejected(idna: Idna, s: string)
    requires Unusable(TrimSpace(s))
    ensures Normalize(idna, s) == Rejected
  {
    UnusableIsRefused(TrimSpace(s));
  }
}
