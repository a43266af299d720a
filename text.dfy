/**
 * The string operations applied to an extracted e-mail body in index.js:
 * the tag-removing `replace(/<[^>]+>/g, "")`, the two notice-cutting
 * `replace(/Atenção:[\s\S]*$/i, "")` / `replace(/Warning:[\s\S]*$/i, "")`
 * and `String.prototype.trim`. Each regular expression is written out as a
 * string function over `seq<char>`.
 */
module Text {
  import opened Options

  // ---------------------------------------------------------------------
  // trim()
  // ---------------------------------------------------------------------

  /** The characters JavaScript's `trim` removes: WhiteSpace and LineTerminator. */
  predicate IsJsSpace(c: char)
  {
    c == '\t' || c == '\n' || c == '\U{0B}' || c == '\U{0C}' || c == '\r' || c == ' '
    || c == '\U{A0}' || c == '\U{1680}' || ('\U{2000}' <= c <= '\U{200A}')
    || c == '\U{2028}' || c == '\U{2029}' || c == '\U{202F}' || c == '\U{205F}'
    || c == '\U{3000}' || c == '\U{FEFF}'
  }

  /** Length of the run of white space at the start of `s`. */
  function Leading(s: string): (n: nat)
    ensures n <= |s|
    ensures forall i :: 0 <= i < n ==> IsJsSpace(s[i])
    ensures n < |s| ==> !IsJsSpace(s[n])
    decreases |s|
  {
    if s != [] && IsJsSpace(s[0]) then 1 + Leading(s[1..]) else 0
  }

  /** Length of the run of white space at the end of `s`. */
  function Trailing(s: string): (n: nat)
    ensures n <= |s|
    ensures forall i :: |s| - n <= i < |s| ==> IsJsSpace(s[i])
    ensures n < |s| ==> !IsJsSpace(s[|s| - 1 - n])
    decreases |s|
  {
    if s != [] && IsJsSpace(s[|s| - 1]) then 1 + Trailing(s[..|s| - 1]) else 0
  }

  /** `s.trim()`: the largest slice of `s` that neither starts nor ends with white space. */
  function Trim(s: string): (r: string)
    ensures Leading(s) + |r| <= |s|
    ensures r == s[Leading(s)..Leading(s) + |r|]
    ensures r != [] ==> !IsJsSpace(r[0]) && !IsJsSpace(r[|r| - 1])
    ensures forall i :: 0 <= i < Leading(s) ==> IsJsSpace(s[i])
    ensures forall i :: Leading(s) + |r| <= i < |s| ==> IsJsSpace(s[i])
  {
    var t := s[Leading(s)..];
    t[..|t| - Trailing(t)]
  }

  /** Trimming a string that has no white space at either end changes nothing. */
  lemma TrimKeepsTrimmed(s: string)
    requires s != [] ==> !IsJsSpace(s[0]) && !IsJsSpace(s[|s| - 1])
    ensures Trim(s) == s
  {
    if s != [] {
      assert Leading(s) == 0;
    }
  }

  // ---------------------------------------------------------------------
  // Case-insensitive search for the notice sentinels
  // ---------------------------------------------------------------------

  /** The Portuguese confidentiality-notice sentinel, "Atenção:". */
  const Atencao: string := "Aten\U{E7}\U{E3}o:"

  /** The English confidentiality-notice sentinel. */
  const WarningMark: string := "Warning:"

  /**
   * The canonical form a non-unicode `/i` regular expression compares:
   * the upper-case letter for the lower-case ASCII and Latin-1 letters.
   * It agrees with JavaScript's canonicalisation on every character whose
   * canonical form is a letter of either sentinel.
   */
  function Canon(c: char): char
  {
    if 'a' <= c <= 'z' || ('\U{E0}' <= c <= '\U{FE}' && c != '\U{F7}') then
      (c as int - 32) as char
    else
      c
  }

  /** `pat` occurs in `s` at position `i`, ignoring case. */
  predicate MatchesAt(s: string, pat: string, i: int)
  {
    0 <= i && i + |pat| <= |s| && forall k :: 0 <= k < |pat| ==> Canon(s[i + k]) == Canon(pat[k])
  }

  /** The first position at or after `from` where `pat` occurs in `s`, ignoring case. */
  function FindCI(s: string, pat: string, from: nat): (r: Option<nat>)
    requires from <= |s|
    ensures r.Some? ==> from <= r.value && MatchesAt(s, pat, r.value)
    ensures r.Some? ==> forall j :: from <= j < r.value ==> !MatchesAt(s, pat, j)
    ensures r.None? ==> forall j :: from <= j ==> !MatchesAt(s, pat, j)
    decreases |s| - from
  {
    if from + |pat| > |s| then None
    else if MatchesAt(s, pat, from) then Some(from)
    else FindCI(s, pat, from + 1)
  }

  /**
   * `s.replace(/pat[\s\S]*$/i, "")`: everything from the first
   * case-insensitive occurrence of `pat` to the end is removed.
   */
  function CutAt(s: string, pat: string): (r: string)
    requires |pat| > 0
    ensures r <= s
    ensures forall j :: MatchesAt(s, pat, j) ==> |r| <= j
    ensures |r| < |s| ==> MatchesAt(s, pat, |r|)
    ensures forall j :: !MatchesAt(r, pat, j)
  {
    match FindCI(s, pat, 0)
    case Some(i) =>
      var r := s[..i];
      assert forall j :: MatchesAt(r, pat, j) ==> MatchesAt(s, pat, j);
      r
    case None =>
      s
  }

  /**
   * The body clean-up of index.js: cut at "Atenção:", then at "Warning:",
   * then trim.
   */
  function Footer(s: string): (r: string)
    ensures |r| <= |s|
  {
    Trim(CutAt(CutAt(s, Atencao), WarningMark))
  }

  /** An occurrence in a slice of `s` is an occurrence in `s`. */
  lemma MatchInSlice(s: string, pat: string, a: nat, b: nat, j: int)
    requires a <= b <= |s|
    requires MatchesAt(s[a..b], pat, j)
    ensures MatchesAt(s, pat, a + j)
  {
    forall k | 0 <= k < |pat|
      ensures Canon(s[a + j + k]) == Canon(pat[k])
    {
      assert s[a..b][j + k] == s[a + j + k];
    }
  }

  /** The cleaned body is one contiguous slice of the extracted text. */
  lemma {:induction false} FooterIsSlice(s: string)
    ensures exists a, b :: 0 <= a <= b <= |s| && Footer(s) == s[a..b]
  {
    var c1 := CutAt(s, Atencao);
    var c2 := CutAt(c1, WarningMark);
    var r := Footer(s);
    var a := Leading(c2);
    assert r == c2[a..a + |r|];
    assert c2 == s[..|c2|];
    assert r == s[a..a + |r|];
  }

  /** Neither sentinel occurs anywhere in the cleaned body. */
  lemma {:induction false} FooterHasNoSentinel(s: string)
    ensures forall j :: !MatchesAt(Footer(s), Atencao, j)
    ensures forall j :: !MatchesAt(Footer(s), WarningMark, j)
  {
    var c1 := CutAt(s, Atencao);
    var c2 := CutAt(c1, WarningMark);
    var r := Footer(s);
    var a := Leading(c2);
    assert r == c2[a..a + |r|];
    forall j | MatchesAt(r, Atencao, j)
      ensures false
    {
      MatchInSlice(c2, Atencao, a, a + |r|, j);
      MatchInSlice(c1, Atencao, 0, |c2|, a + j);
    }
    forall j | MatchesAt(r, WarningMark, j)
      ensures false
    {
      MatchInSlice(c2, WarningMark, a, a + |r|, j);
    }
  }

  /** A body with neither sentinel is only trimmed. */
  lemma {:induction false} FooterWithoutSentinel(s: string)
    requires forall j :: !MatchesAt(s, Atencao, j)
    requires forall j :: !MatchesAt(s, WarningMark, j)
    ensures Footer(s) == Trim(s)
  {
    assert CutAt(s, Atencao) == s;
    assert CutAt(s, WarningMark) == s;
  }

  /**
   * A notice introduced by "Atenção:" written in any letter case is removed
   * together with everything after it; the text before it is only trimmed.
   */
  lemma {:induction false} FooterDropsNotice(t: string, v: string, f: string)
    requires forall j :: !MatchesAt(t, Atencao, j)
    requires forall j :: !MatchesAt(t, WarningMark, j)
    requires |v| == |Atencao|
    requires forall k :: 0 <= k < |v| ==> Canon(v[k]) == Canon(Atencao[k])
    ensures Footer(t + v + f) == Trim(t)
  {
    var s := t + v + f;
    assert MatchesAt(s, Atencao, |t|) by {
      forall k | 0 <= k < |Atencao|
        ensures Canon(s[|t| + k]) == Canon(Atencao[k])
      {
        assert s[|t| + k] == v[k];
      }
    }
    forall j | 0 <= j < |t| && j + |Atencao| <= |t|
      ensures !MatchesAt(s, Atencao, j)
    {
      assert !MatchesAt(t, Atencao, j);
      assert s[..|t|] == t;
    }
    forall j | 0 <= j < |t| && |t| < j + |Atencao|
      ensures !MatchesAt(s, Atencao, j)
    {
      // the sentinel's leading 'A' at |t| would have to line up with a later letter of it
      var k := |t| - j;
      assert s[j + k] == v[0];
      assert Canon(v[0]) == 'A';
      assert Canon(Atencao[k]) != 'A';
    }
    assert CutAt(s, Atencao) == t;
    assert CutAt(t, WarningMark) == t;
  }

  // ---------------------------------------------------------------------
  // replace(/<[^>]+>/g, "")
  // ---------------------------------------------------------------------

  /** The first position at or after `from` holding `c`. */
  function IndexOf(s: string, c: char, from: nat): (r: Option<nat>)
    requires from <= |s|
    ensures r.Some? ==> from <= r.value < |s| && s[r.value] == c
    ensures r.Some? ==> forall k :: from <= k < r.value ==> s[k] != c
    ensures r.None? ==> forall k :: from <= k < |s| ==> s[k] != c
    decreases |s| - from
  {
    if from == |s| then None
    else if s[from] == c then Some(from)
    else IndexOf(s, c, from + 1)
  }

  /**
   * Where the tag starting at the front of `s` ends, if `s` starts with a
   * match of `<[^>]+>`: the index of the first `>`, which must leave at
   * least one character between the brackets.
   */
  function TagEnd(s: string): (r: Option<nat>)
    ensures r.Some? ==> 2 <= r.value < |s| && s[0] == '<' && s[r.value] == '>'
    ensures r.Some? ==> forall k :: 1 <= k < r.value ==> s[k] != '>'
    ensures r.None? ==> !(|s| >= 3 && s[0] == '<' && s[1] != '>' && '>' in s[2..])
  {
    if s != [] && s[0] == '<' then
      match IndexOf(s, '>', 1)
      case Some(j) => if j >= 2 then Some(j) else None
      case None => None
    else
      None
  }

  /** Every run `<…>` with a non-empty, `>`-free interior is removed, scanning left to right. */
  function StripTags(s: string): (r: string)
    ensures |r| <= |s|
    decreases |s|
  {
    if s == [] then []
    else match TagEnd(s)
      case Some(j) => StripTags(s[j + 1..])
      case None => [s[0]] + StripTags(s[1..])
  }

  /** Text without `<` passes through unchanged. */
  lemma {:induction false} StripTagsPlain(s: string)
    requires '<' !in s
    ensures StripTags(s) == s
    decreases |s|
  {
    if s != [] {
      assert s[0] != '<';
      assert '<' !in s[1..];
      StripTagsPlain(s[1..]);
    }
  }

  /** Every character kept by StripTags comes from its input. */
  lemma {:induction false} StripTagsKeepsOnlyInput(s: string, c: char)
    requires c !in s
    ensures c !in StripTags(s)
    decreases |s|
  {
    if s != [] {
      match TagEnd(s)
      case Some(j) =>
        StripTagsKeepsOnlyInput(s[j + 1..], c);
      case None =>
        StripTagsKeepsOnlyInput(s[1..], c);
    }
  }

  /**
   * No tag is left to strip: every `<` is either directly followed by `>`
   * or has no `>` anywhere after it.
   */
  predicate TagFree(s: string)
  {
    forall i :: 0 <= i < |s| && s[i] == '<' ==>
      (i + 1 < |s| && s[i + 1] == '>') || '>' !in s[i + 1..]
  }

  /** A tag-free string is its own stripped form. */
  lemma {:induction false} StripTagsTagFree(s: string)
    requires TagFree(s)
    ensures StripTags(s) == s
    decreases |s|
  {
    if s != [] {
      assert TagEnd(s).None? by {
        if s[0] == '<' && !(1 < |s| && s[1] == '>') {
          assert '>' !in s[1..];
          assert forall k :: 1 <= k < |s| ==> s[k] != '>' by {
            forall k | 1 <= k < |s| ensures s[k] != '>' {
              assert s[k] == s[1..][k - 1];
            }
          }
        }
      }
      var t := s[1..];
      assert TagFree(t) by {
        forall i | 0 <= i < |t| && t[i] == '<'
          ensures (i + 1 < |t| && t[i + 1] == '>') || '>' !in t[i + 1..]
        {
          assert s[i + 1] == '<';
          assert s[i + 2..] == t[i + 1..];
        }
      }
      StripTagsTagFree(t);
    }
  }

  /** What StripTags leaves behind has no tag in it. */
  lemma {:induction false} StripTagsIsTagFree(s: string)
    ensures TagFree(StripTags(s))
    decreases |s|
  {
    if s != [] {
      match TagEnd(s)
      case Some(j) =>
        StripTagsIsTagFree(s[j + 1..]);
      case None =>
        var rest := StripTags(s[1..]);
        StripTagsIsTagFree(s[1..]);
        var r := [s[0]] + rest;
        assert r == StripTags(s);
        forall i | 0 <= i < |r| && r[i] == '<'
          ensures (i + 1 < |r| && r[i + 1] == '>') || '>' !in r[i + 1..]
        {
          if i == 0 {
            if 1 < |s| && s[1] == '>' {
              assert TagEnd(s[1..]).None?;
              assert rest == [s[1]] + StripTags(s[2..]);
              assert r[1] == '>';
            } else {
              assert IndexOf(s, '>', 1).None?;
              assert '>' !in s[1..];
              StripTagsKeepsOnlyInput(s[1..], '>');
              assert r[1..] == rest;
            }
          } else {
            assert rest[i - 1] == '<';
            assert r[i + 1..] == rest[i..];
          }
        }
    }
  }

  /** Stripping twice is the same as stripping once. */
  lemma StripTagsIdempotent(s: string)
    ensures StripTags(StripTags(s)) == StripTags(s)
  {
    StripTagsIsTagFree(s);
    StripTagsTagFree(StripTags(s));
  }
}
