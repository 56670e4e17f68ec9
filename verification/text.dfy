/** The two string operations the scrapers rely on: Python's `str.strip()`
    (used by BeautifulSoup's `get_text(strip=True)`) and concatenation of a
    sequence of strings with no separator (`"".join`, or a `+=` loop). The
    concatenation is stated for sequences of any kind, so that it also
    joins the traces of successive calls. */
module Text {

  /** The characters Python's `str.isspace()` accepts: the ASCII whitespace
      and separator controls, NEL, NO-BREAK SPACE, the Unicode space
      separators and the line and paragraph separators. */
  const SpaceChars: set<char> :=
    {'\t', '\n', '\U{0B}', '\U{0C}', '\r', '\U{1C}', '\U{1D}', '\U{1E}', '\U{1F}', ' ',
     '\U{85}', '\U{A0}', '\U{1680}',
     '\U{2000}', '\U{2001}', '\U{2002}', '\U{2003}', '\U{2004}', '\U{2005}',
     '\U{2006}', '\U{2007}', '\U{2008}', '\U{2009}', '\U{200A}',
     '\U{2028}', '\U{2029}', '\U{202F}', '\U{205F}', '\U{3000}'}

  predicate IsSpace(c: char) {
    c in SpaceChars
  }

  predicate AllSpace(s: string) {
    forall i :: 0 <= i < |s| ==> IsSpace(s[i])
  }

  /** Neither end of `s` is whitespace. */
  predicate Trimmed(s: string) {
    s == [] || (!IsSpace(s[0]) && !IsSpace(s[|s| - 1]))
  }

  /** The first index at or after `i` that is not whitespace (or `|s|`). */
  function SkipSpace(s: string, i: nat): (k: nat)
    requires i <= |s|
    ensures i <= k <= |s|
    ensures forall m :: i <= m < k ==> IsSpace(s[m])
    ensures k == |s| || !IsSpace(s[k])
    decreases |s| - i
  {
    if i < |s| && IsSpace(s[i]) then SkipSpace(s, i + 1) else i
  }

  /** Scanning back from `j` but not past `lo`: the end of the last
      non-whitespace character (or `lo`). */
  function SkipSpaceBack(s: string, lo: nat, j: nat): (k: nat)
    requires lo <= j <= |s|
    ensures lo <= k <= j
    ensures forall m :: k <= m < j ==> IsSpace(s[m])
    ensures k == lo || !IsSpace(s[k - 1])
    decreases j
  {
    if j > lo && IsSpace(s[j - 1]) then SkipSpaceBack(s, lo, j - 1) else j
  }

  /** Python's `str.strip()`: `s` with its whitespace prefix and suffix
      removed. */
  function Strip(s: string): (r: string)
    ensures Trimmed(r) && |r| <= |s|
  {
    var i := SkipSpace(s, 0);
    var j := SkipSpaceBack(s, i, |s|);
    s[i..j]
  }

  /** `Strip` removes whitespace only: its result is a slice of `s` with
      nothing but whitespace before and after it. */
  lemma StripFramed(s: string)
    ensures var r := Strip(s);
            exists i :: 0 <= i <= |s| - |r| && AllSpace(s[..i]) && r == s[i..i + |r|] && AllSpace(s[i + |r|..])
  {
    var i := SkipSpace(s, 0);
    var j := SkipSpaceBack(s, i, |s|);
    assert AllSpace(s[..i]) by {
      forall m | 0 <= m < i ensures IsSpace(s[..i][m]) { assert s[..i][m] == s[m]; }
    }
    assert AllSpace(s[j..]) by {
      forall m | 0 <= m < |s| - j ensures IsSpace(s[j..][m]) { assert s[j..][m] == s[j + m]; }
    }
  }

  /** Uniqueness: whenever `s` splits into whitespace, a trimmed core and
      whitespace, `Strip` returns exactly that core. */
  lemma StripCharacterization(s: string, i: nat, j: nat)
    requires i <= j <= |s|
    requires AllSpace(s[..i]) && Trimmed(s[i..j]) && AllSpace(s[j..])
    ensures Strip(s) == s[i..j]
  {
    assert forall m :: 0 <= m < i ==> IsSpace(s[m]) by {
      forall m | 0 <= m < i ensures IsSpace(s[m]) { assert s[..i][m] == s[m]; }
    }
    assert forall m :: j <= m < |s| ==> IsSpace(s[m]) by {
      forall m | j <= m < |s| ensures IsSpace(s[m]) { assert s[j..][m - j] == s[m]; }
    }
    var a := SkipSpace(s, 0);
    var b := SkipSpaceBack(s, a, |s|);
    if i < j {
      assert !IsSpace(s[i]) && !IsSpace(s[j - 1]) by {
        assert s[i..j][0] == s[i] && s[i..j][j - i - 1] == s[j - 1];
      }
      assert a == i;
      assert b == j;
    } else {
      assert a == |s|;
    }
  }

  /** Stripping twice is stripping once. */
  lemma {:induction false} StripIdempotent(s: string)
    ensures Strip(Strip(s)) == Strip(s)
  {
    var r := Strip(s);
    assert r[0..|r|] == r;
    StripCharacterization(r, 0, |r|);
  }

  /** The pieces of `ps` joined in order with no separator, built the way
      a `content += piece` loop builds it. */
  function Concat<T>(ps: seq<seq<T>>): (r: seq<T>)
  {
    if ps == [] then [] else Concat(ps[..|ps| - 1]) + ps[|ps| - 1]
  }

  lemma ConcatSingle<T>(p: seq<T>)
    ensures Concat([p]) == p
  {
    assert [p][..0] == [];
  }

  /** Concatenation distributes over splitting the pieces anywhere. */
  lemma {:induction false} ConcatAppend<T>(a: seq<seq<T>>, b: seq<seq<T>>)
    ensures Concat(a + b) == Concat(a) + Concat(b)
    decreases |b|
  {
    if b == [] {
      assert a + b == a;
    } else {
      var b', ab := b[..|b| - 1], a + b;
      assert ab[..|ab| - 1] == a + b';
      assert ab[|ab| - 1] == b[|b| - 1];
      assert Concat(ab) == Concat(a + b') + b[|b| - 1];
      ConcatAppend(a, b');
      assert Concat(b) == Concat(b') + b[|b| - 1];
    }
  }

  /** The first piece comes first, followed by the rest joined. */
  lemma ConcatCons<T>(ps: seq<seq<T>>, rest: seq<seq<T>>)
    requires ps != [] && ps[1..] == rest
    ensures Concat(ps) == ps[0] + Concat(rest)
  {
    assert ps == [ps[0]] + rest;
    ConcatAppend([ps[0]], rest);
    ConcatSingle(ps[0]);
  }

  /** Each piece sits, unchanged and unseparated, between the pieces before
      it and the pieces after it. */
  lemma {:induction false} ConcatPiece<T>(ps: seq<seq<T>>, i: nat)
    requires i < |ps|
    ensures Concat(ps) == Concat(ps[..i]) + ps[i] + Concat(ps[i + 1..])
  {
    var before, rest, after := ps[..i], ps[i..], ps[i + 1..];
    assert before + rest == ps;
    ConcatAppend(before, rest);
    assert [ps[i]] + after == rest;
    ConcatAppend([ps[i]], after);
    assert Concat([ps[i]]) == ps[i] by {
      assert [ps[i]][..0] == [];
    }
  }

  /** Joining trimmed pieces gives a trimmed string. */
  lemma {:induction false} ConcatTrimmed(ps: seq<string>)
    requires forall i :: 0 <= i < |ps| ==> Trimmed(ps[i])
    ensures Trimmed(Concat(ps))
    decreases |ps|
  {
    if ps != [] {
      var init := ps[..|ps| - 1];
      ConcatTrimmed(init);
      var c := Concat(init);
      var p := ps[|ps| - 1];
      assert Trimmed(p);
      assert Concat(ps) == c + p;
      if c != [] && p != [] {
        assert (c + p)[0] == c[0];
        assert (c + p)[|c + p| - 1] == p[|p| - 1];
      }
    }
  }
}
