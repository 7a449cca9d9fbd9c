/**
 * Text normalisation and tokenisation used by the therapy-area classifier:
 * `re.sub(r"[^\w\s]", "", s.lower())`, `str.split()` and the `in` test of one
 * string inside another.
 */
module Text {

  /** A character of the regex class `\s` on `str`, which is also what
      `str.split()` with no argument splits on (CPython's whitespace table). */
  predicate IsSpace(c: char) {
    var n := c as int;
    || n == 0x20
    || 0x09 <= n <= 0x0D
    || 0x1C <= n <= 0x1F
    || n == 0x85 || n == 0xA0 || n == 0x1680
    || 0x2000 <= n <= 0x200A
    || n == 0x2028 || n == 0x2029 || n == 0x202F || n == 0x205F || n == 0x3000
  }

  /** A character of the regex class `\w`: letters, digits and underscore (ASCII). */
  predicate IsWordChar(c: char) {
    || 'a' <= c <= 'z'
    || 'A' <= c <= 'Z'
    || '0' <= c <= '9'
    || c == '_'
  }

  predicate IsUpper(c: char) {
    'A' <= c <= 'Z'
  }

  /** `str.lower()` on one character. */
  function Lower(c: char): (d: char)
    ensures !IsUpper(d)
    ensures IsUpper(c) ==> d != c && d as int == c as int + 32
    ensures !IsUpper(c) ==> d == c
  {
    if IsUpper(c) then (c as int + 32) as char else c
  }

  /** A character the normalising regex leaves in place. */
  predicate Kept(c: char) {
    IsWordChar(c) || IsSpace(c)
  }

  /** Every character is a lower-case word character or whitespace. */
  predicate IsNormal(s: string) {
    forall i :: 0 <= i < |s| ==> Kept(s[i]) && !IsUpper(s[i])
  }

  /** Lower-case `s`, then delete every character that is neither a word
      character nor whitespace, with nothing put in its place. */
  function Normalize(s: string): (r: string)
    ensures |r| <= |s|
  {
    if s == [] then []
    else
      var c := Lower(s[0]);
      (if Kept(c) then [c] else []) + Normalize(s[1..])
  }

  /** The normalised text holds only lower-case word characters and whitespace. */
  lemma {:induction false} NormalizeIsNormal(s: string)
    ensures IsNormal(Normalize(s))
  {
    if s != [] {
      NormalizeIsNormal(s[1..]);
      var c := Lower(s[0]);
      var head: string := if Kept(c) then [c] else [];
      assert Normalize(s) == head + Normalize(s[1..]);
    }
  }

  /** Normalising works character by character: it distributes over concatenation. */
  lemma {:induction false} NormalizeConcat(a: string, b: string)
    ensures Normalize(a + b) == Normalize(a) + Normalize(b)
  {
    if a == [] {
      assert a + b == b;
    } else {
      var c := Lower(a[0]);
      var head: string := if Kept(c) then [c] else [];
      assert (a + b)[0] == a[0];
      assert (a + b)[1..] == a[1..] + b;
      assert Normalize(a + b) == head + Normalize(a[1..] + b);
      NormalizeConcat(a[1..], b);
      assert Normalize(a) == head + Normalize(a[1..]);
    }
  }

  /** Normalising a text that is already normal changes nothing. */
  lemma {:induction false} NormalizeOfNormal(s: string)
    requires IsNormal(s)
    ensures Normalize(s) == s
  {
    if s != [] {
      assert IsNormal(s[1..]) by {
        forall i | 0 <= i < |s[1..]| ensures Kept(s[1..][i]) && !IsUpper(s[1..][i]) {
          assert s[1..][i] == s[i + 1];
        }
      }
      NormalizeOfNormal(s[1..]);
    }
  }

  /** Normalising twice is normalising once. */
  lemma NormalizeIdempotent(s: string)
    ensures Normalize(Normalize(s)) == Normalize(s)
  {
    NormalizeIsNormal(s);
    NormalizeOfNormal(Normalize(s));
  }

  /** Case makes no difference: texts that agree letter for letter once
      lower-cased normalise identically. */
  lemma {:induction false} NormalizeIgnoresCase(s: string, t: string)
    requires |s| == |t|
    requires forall i :: 0 <= i < |s| ==> Lower(s[i]) == Lower(t[i])
    ensures Normalize(s) == Normalize(t)
  {
    if s != [] {
      assert Lower(s[0]) == Lower(t[0]);
      NormalizeIgnoresCase(s[1..], t[1..]);
    }
  }

  /** A character that is neither a word character nor whitespace is deleted
      with nothing in its place: the text on either side closes up. */
  lemma NormalizeDeletes(a: string, c: char, b: string)
    requires !Kept(Lower(c))
    ensures Normalize(a + [c] + b) == Normalize(a + b)
  {
    NormalizeConcat(a + [c], b);
    NormalizeConcat(a, [c]);
    NormalizeConcat(a, b);
    assert Normalize([c]) == [];
  }

  /** "COVID-19 Trial" and "covid19 trial" normalise identically: the hyphen
      goes and the capitals are lowered. */
  lemma CovidExample(upper: string, lower: string)
    requires upper == "COVID-19 Trial" && lower == "covid19 trial"
    ensures Normalize(upper) == Normalize(lower)
  {
    var a, b := upper[..5], upper[6..];
    assert upper == a + ['-'] + b;
    NormalizeDeletes(a, '-', b);
    NormalizeIgnoresCase(a + b, lower);
  }

  /** Length of the run of non-whitespace characters at the start of `s`. */
  function TokenLength(s: string): (n: nat)
    ensures n <= |s|
    ensures forall j :: 0 <= j < n ==> !IsSpace(s[j])
    ensures n == |s| || IsSpace(s[n])
  {
    if s == [] || IsSpace(s[0]) then 0 else 1 + TokenLength(s[1..])
  }

  predicate NoSpace(w: string) {
    forall j :: 0 <= j < |w| ==> !IsSpace(w[j])
  }

  /** A token as `str.split()` yields it: non-empty and free of whitespace. */
  predicate IsToken(w: string) {
    w != [] && NoSpace(w)
  }

  /** `str.split()` with no argument: the maximal runs of non-whitespace
      characters, in order; runs of whitespace separate them and no empty
      string is ever produced. */
  function Split(s: string): (r: seq<string>)
    decreases |s|
  {
    if s == [] then []
    else if IsSpace(s[0]) then Split(s[1..])
    else
      var n := TokenLength(s);
      [s[..n]] + Split(s[n..])
  }

  /** Every token `Split` yields is non-empty and free of whitespace. */
  lemma {:induction false} SplitTokens(s: string)
    ensures forall w :: w in Split(s) ==> IsToken(w)
    decreases |s|
  {
    if s != [] {
      if IsSpace(s[0]) {
        SplitTokens(s[1..]);
      } else {
        SplitTokens(s[TokenLength(s)..]);
      }
    }
  }

  predicate AllSpace(s: string) {
    forall j :: 0 <= j < |s| ==> IsSpace(s[j])
  }

  /** Splitting yields nothing exactly when the text is empty or all whitespace. */
  lemma {:induction false} SplitEmptyIff(s: string)
    ensures Split(s) == [] <==> AllSpace(s)
    decreases |s|
  {
    if s != [] && IsSpace(s[0]) {
      SplitEmptyIff(s[1..]);
      assert AllSpace(s) <==> AllSpace(s[1..]) by {
        if AllSpace(s[1..]) {
          forall j | 0 <= j < |s| ensures IsSpace(s[j]) {
            if j > 0 { assert s[j] == s[1..][j - 1]; }
          }
        }
      }
    }
  }

  /** `w` occurs in `s` as a whole word: at the start or after whitespace, and
      at the end or before whitespace. */
  predicate WholeWordAt(w: string, s: string, i: int) {
    && 0 <= i <= |s| - |w|
    && s[i..i + |w|] == w
    && (i == 0 || IsSpace(s[i - 1]))
    && (i + |w| == |s| || IsSpace(s[i + |w|]))
  }

  ghost predicate IsWholeWord(w: string, s: string) {
    exists i :: WholeWordAt(w, s, i)
  }

  /** Membership among the split tokens is whole-word occurrence: a token of
      the text is never found inside a longer word. */
  lemma SplitMemberIff(w: string, s: string)
    requires IsToken(w)
    ensures w in Split(s) <==> IsWholeWord(w, s)
  {
    if w in Split(s) {
      SplitMemberIsWholeWord(w, s);
    }
    if IsWholeWord(w, s) {
      var i :| WholeWordAt(w, s, i);
      WholeWordIsSplitMember(w, s, i);
    }
  }

  lemma {:induction false} SplitMemberIsWholeWord(w: string, s: string)
    requires IsToken(w) && w in Split(s)
    ensures IsWholeWord(w, s)
    decreases |s|
  {
    if IsSpace(s[0]) {
      SplitMemberIsWholeWord(w, s[1..]);
      var j :| WholeWordAt(w, s[1..], j);
      WholeWordShift(w, s, 1, j);
    } else {
      var n := TokenLength(s);
      if w == s[..n] {
        assert WholeWordAt(w, s, 0);
      } else {
        SplitMemberIsWholeWord(w, s[n..]);
        var j :| WholeWordAt(w, s[n..], j);
        assert j > 0 by {
          assert s[n..][j] == w[0];
        }
        WholeWordShift(w, s, n, j);
      }
    }
  }

  /** A whole-word occurrence in a suffix that does not start the suffix is
      one in the whole text. */
  lemma WholeWordShift(w: string, s: string, m: nat, j: int)
    requires m <= |s| && WholeWordAt(w, s[m..], j)
    requires j == 0 ==> 0 < m && IsSpace(s[m - 1])
    ensures WholeWordAt(w, s, m + j)
  {
    assert s[m + j..m + j + |w|] == s[m..][j..j + |w|];
  }

  lemma {:induction false} WholeWordIsSplitMember(w: string, s: string, i: int)
    requires IsToken(w) && WholeWordAt(w, s, i)
    ensures w in Split(s)
    decreases |s|
  {
    assert s[i] == w[0];
    if IsSpace(s[0]) {
      assert s[1..][i - 1..i - 1 + |w|] == s[i..i + |w|];
      WholeWordIsSplitMember(w, s[1..], i - 1);
    } else {
      var n := TokenLength(s);
      var rest := s[n..];
      if i == 0 {
        TokenAtStart(w, s, n);
      } else {
        assert i > n;
        var j := i - n;
        assert rest[j..j + |w|] == s[i..i + |w|];
        WholeWordIsSplitMember(w, rest, j);
      }
    }
  }

  /** A token at the very start of `t`, followed by whitespace or the end, is
      the first whitespace-free run of `t`. */
  lemma TokenAtStart(w: string, t: string, n: nat)
    requires IsToken(w) && |w| <= |t| && t[..|w|] == w
    requires |w| == |t| || IsSpace(t[|w|])
    requires n == TokenLength(t)
    ensures w == t[..n]
  {
    forall j | 0 <= j < |w| ensures !IsSpace(t[j]) {
      assert t[j] == w[j];
    }
    TokenLengthIsRun(t, |w|);
  }

  /** The tokens joined by single spaces. */
  function JoinSpaced(ws: seq<string>): (r: string) {
    if ws == [] then []
    else if |ws| == 1 then ws[0]
    else ws[0] + " " + JoinSpaced(ws[1..])
  }

  /** Splitting whitespace-free, non-empty tokens that were joined by single
      spaces gives those tokens back. */
  lemma {:induction false} SplitJoinSpaced(ws: seq<string>)
    requires forall i :: 0 <= i < |ws| ==> IsToken(ws[i])
    ensures Split(JoinSpaced(ws)) == ws
  {
    if ws != [] {
      var w := ws[0];
      var s := JoinSpaced(ws);
      assert s[..|w|] == w;
      if |ws| == 1 {
        TokenLengthIsRun(s, |w|);
      } else {
        var tail := JoinSpaced(ws[1..]);
        assert s == w + ([' '] + tail);
        TokenLengthIsRun(s, |w|);
        assert s[|w|..] == [' '] + tail;
        assert ([' '] + tail)[1..] == tail;
        SplitJoinSpaced(ws[1..]);
      }
    }
  }

  /** Normal tokens joined by single spaces form a normal text. */
  lemma {:induction false} JoinSpacedIsNormal(ws: seq<string>)
    requires forall i :: 0 <= i < |ws| ==> IsNormal(ws[i])
    ensures IsNormal(JoinSpaced(ws))
  {
    if |ws| > 1 {
      JoinSpacedIsNormal(ws[1..]);
      var tail := JoinSpaced(ws[1..]);
      var s := JoinSpaced(ws);
      assert s == ws[0] + ([' '] + tail);
      forall i | 0 <= i < |s| ensures Kept(s[i]) && !IsUpper(s[i]) {
        if i < |ws[0]| {
          assert s[i] == ws[0][i];
        } else if i > |ws[0]| {
          assert s[i] == tail[i - |ws[0]| - 1];
        }
      }
    }
  }

  /** Normal tokens joined by single spaces normalise to themselves and split
      back into those tokens. */
  lemma JoinSpacedNormalizeSplit(ws: seq<string>)
    requires forall i :: 0 <= i < |ws| ==> IsToken(ws[i]) && IsNormal(ws[i])
    ensures Normalize(JoinSpaced(ws)) == JoinSpaced(ws)
    ensures Split(JoinSpaced(ws)) == ws
  {
    JoinSpacedIsNormal(ws);
    NormalizeOfNormal(JoinSpaced(ws));
    SplitJoinSpaced(ws);
  }

  lemma TokenLengthIsRun(s: string, n: nat)
    requires n <= |s|
    requires forall j :: 0 <= j < n ==> !IsSpace(s[j])
    requires n == |s| || IsSpace(s[n])
    ensures TokenLength(s) == n
  {
  }

  /** Python's `p in s` for strings: `p` is a contiguous substring of `s`
      (the empty string is in every string). */
  predicate Contains(s: string, p: string)
    decreases |s|
  {
    |p| <= |s| && (s[..|p|] == p || (s != [] && Contains(s[1..], p)))
  }

  predicate OccursAt(s: string, p: string, i: int) {
    0 <= i <= |s| - |p| && s[i..i + |p|] == p
  }

  /** Some position of `s` starts a copy of `p`. */
  ghost predicate IsSubstring(p: string, s: string) {
    exists i :: OccursAt(s, p, i)
  }

  /** `Contains` finds `p` exactly when some position of `s` starts a copy of it. */
  lemma {:induction false} ContainsIff(s: string, p: string)
    ensures Contains(s, p) <==> IsSubstring(p, s)
    decreases |s|
  {
    if |p| <= |s| && s != [] {
      ContainsIff(s[1..], p);
      if s[..|p|] == p {
        assert OccursAt(s, p, 0);
      }
      if exists i :: OccursAt(s[1..], p, i) {
        var i :| OccursAt(s[1..], p, i);
        assert s[1..][i..i + |p|] == s[i + 1..i + 1 + |p|];
        assert OccursAt(s, p, i + 1);
      }
      if exists i :: OccursAt(s, p, i) {
        var i :| OccursAt(s, p, i);
        if i == 0 {
          assert s[..|p|] == s[i..i + |p|];
        } else {
          assert s[1..][i - 1..i - 1 + |p|] == s[i..i + |p|];
          assert OccursAt(s[1..], p, i - 1);
        }
      }
    } else if |p| <= |s| {
      assert OccursAt(s, p, 0);
    }
  }

  /** A whole-word occurrence is in particular a substring occurrence. */
  lemma WholeWordIsContained(w: string, s: string)
    requires IsWholeWord(w, s)
    ensures Contains(s, w)
  {
    var i :| WholeWordAt(w, s, i);
    assert OccursAt(s, w, i);
    ContainsIff(s, w);
  }

  /** Normalising two texts joined by a space joins their normal forms by a space. */
  lemma NormalizeJoin(a: string, b: string)
    ensures Normalize(a + " " + b) == Normalize(a) + " " + Normalize(b)
  {
    NormalizeConcat(a + " ", b);
    NormalizeConcat(a, " ");
    assert Normalize(" ") == " " + Normalize("");
  }

  /** A substring of either side of a space-joined text is a substring of the whole. */
  lemma SubstringOfJoin(p: string, a: string, b: string)
    requires IsSubstring(p, a) || IsSubstring(p, b)
    ensures IsSubstring(p, a + " " + b)
  {
    var s := a + " " + b;
    if IsSubstring(p, a) {
      var i :| OccursAt(a, p, i);
      assert s[i..i + |p|] == a[i..i + |p|];
      assert OccursAt(s, p, i);
    } else {
      var i :| OccursAt(b, p, i);
      var k := |a| + 1 + i;
      assert s[k..k + |p|] == b[i..i + |p|];
      assert OccursAt(s, p, k);
    }
  }

  /** A whole word of either side of a space-joined text is a whole word of the
      whole: the joining space is a boundary on both sides. */
  lemma WholeWordOfJoin(w: string, a: string, b: string)
    requires IsWholeWord(w, a) || IsWholeWord(w, b)
    ensures IsWholeWord(w, a + " " + b)
  {
    var s := a + " " + b;
    if IsWholeWord(w, a) {
      var i :| WholeWordAt(w, a, i);
      assert s[i..i + |w|] == a[i..i + |w|];
      assert i + |w| < |s|;
      assert i + |w| < |a| ==> s[i + |w|] == a[i + |w|];
      assert i > 0 ==> s[i - 1] == a[i - 1];
      assert WholeWordAt(w, s, i);
    } else {
      var i :| WholeWordAt(w, b, i);
      var k := |a| + 1 + i;
      forall j | 0 <= j < |w| ensures s[k + j] == w[j] {
        assert s[k + j] == b[i + j];
        assert b[i..i + |w|][j] == b[i + j];
      }
      assert s[k..k + |w|] == w;
      assert s[k - 1] == if i == 0 then ' ' else b[i - 1];
      assert k + |w| < |s| ==> s[k + |w|] == b[i + |w|];
      assert WholeWordAt(w, s, k);
    }
  }

  /** Splitting two texts joined by a space splits each of them: the joining
      space always ends a token. */
  lemma {:induction false} SplitJoin(a: string, b: string)
    ensures Split(a + " " + b) == Split(a) + Split(b)
    decreases |a|
  {
    var s := a + " " + b;
    if a == [] {
      assert s == [' '] + b;
      assert s[1..] == b;
    } else if IsSpace(a[0]) {
      assert s[1..] == a[1..] + " " + b;
      SplitJoin(a[1..], b);
    } else {
      var n := TokenLength(a);
      forall j | 0 <= j < n ensures !IsSpace(s[j]) {
        assert s[j] == a[j];
      }
      assert IsSpace(s[n]) by {
        if n < |a| { assert s[n] == a[n]; }
      }
      TokenLengthIsRun(s, n);
      assert s[..n] == a[..n];
      assert s[n..] == a[n..] + " " + b;
      SplitJoin(a[n..], b);
    }
  }

  /** A token that is not even a substring of a text is not one of its tokens. */
  lemma AbsentTokenNotSplit(w: string, s: string)
    requires IsToken(w) && !IsSubstring(w, s)
    ensures w !in Split(s)
  {
    SplitMemberIff(w, s);
    if IsWholeWord(w, s) {
      var i :| WholeWordAt(w, s, i);
      assert OccursAt(s, w, i);
    }
  }
}
