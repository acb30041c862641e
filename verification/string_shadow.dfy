/** `StringShadow`: a window of `size` characters starting at `start` in a
    character buffer that outlives it. Only the window is ever read, except
    that comparisons stop early at a NUL character as C string functions
    do. */
module StringShadows {
  import opened StringUtils

  const NUL: char := '\0'

  datatype Shadow = Shadow(source: string, start: nat, size: nat)
  {
    /** The window lies inside its buffer. */
    predicate Valid() {
      start + size <= |source|
    }

    /** `toString()`: the characters of the window. */
    function Text(): (t: string)
      requires Valid()
      ensures |t| == size
      ensures forall i | 0 <= i < size :: t[i] == source[start + i]
    {
      source[start..start + size]
    }
  }

  /** The default shadow, and the one `clear` leaves: an empty window on
      the literal "". */
  function Empty(): (w: Shadow)
    ensures w.Valid() && w.size == 0 && w.Text() == ""
  {
    Shadow("", 0, 0)
  }

  /** `clear()`. */
  function Clear(w: Shadow): (r: Shadow)
    ensures r.Valid() && r.size == 0 && r.Text() == ""
  {
    Empty()
  }

  // ---------------------------------------------------------------------
  // find

  /** `find`'s answer: an index into the window, or `npos`. */
  datatype Found = NotFound | FoundAt(index: nat)

  /** `memchr` over t from i on. */
  function Memchr(t: string, c: char, i: nat): (r: Found)
    requires i <= |t|
    ensures r.FoundAt? ==> i <= r.index < |t| && t[r.index] == c
    ensures r.FoundAt? ==> forall k | i <= k < r.index :: t[k] != c
    ensures r.NotFound? ==> forall k | i <= k < |t| :: t[k] != c
    decreases |t| - i
  {
    if i == |t| then NotFound
    else if t[i] == c then FoundAt(i)
    else Memchr(t, c, i + 1)
  }

  /** `find(c, pos)`: `npos` when pos is past the end; otherwise the first
      index at or after pos holding c, or `npos` when there is none. */
  function Find(w: Shadow, c: char, pos: nat): (r: Found)
    requires w.Valid()
    ensures pos > w.size ==> r == NotFound
    ensures r.FoundAt? ==> pos <= r.index < w.size && w.Text()[r.index] == c
    ensures r.FoundAt? ==> forall k | pos <= k < r.index :: w.Text()[k] != c
    ensures r.NotFound? && pos <= w.size ==> forall k | pos <= k < w.size :: w.Text()[k] != c
  {
    if pos > w.size then NotFound else Memchr(w.Text(), c, pos)
  }

  /** `find` on a shadow agrees with `std::string::find` on its text. */
  lemma FindAgrees(w: Shadow, c: char, pos: nat)
    requires w.Valid() && pos <= w.size
    ensures Find(w, c, pos) ==
      (if FindChar(w.Text(), c, pos) == w.size then NotFound else FoundAt(FindChar(w.Text(), c, pos)))
  {
    var t := w.Text();
    var i := FindChar(t, c, pos);
    var r := Memchr(t, c, pos);
    assert i < |t| ==> t[i] == c;
  }

  // ---------------------------------------------------------------------
  // substr

  /** `substr(pos)`: empty when pos is past the end, otherwise the rest of
      the window from pos, on the same buffer. */
  function Suffix(w: Shadow, pos: nat): (r: Shadow)
    requires w.Valid()
    ensures r.Valid()
    ensures pos > w.size ==> r.Text() == ""
    ensures pos <= w.size ==> r.Text() == w.Text()[pos..] && r.source == w.source
  {
    if pos > w.size then Empty() else Shadow(w.source, w.start + pos, w.size - pos)
  }

  /** `substr(pos, len)`: empty when pos + len passes the end (the length is
      not clamped), otherwise exactly the len characters from pos. */
  function Substr(w: Shadow, pos: nat, len: nat): (r: Shadow)
    requires w.Valid()
    ensures r.Valid()
    ensures pos + len > w.size ==> r.Text() == ""
    ensures pos + len <= w.size ==> r.Text() == w.Text()[pos..pos + len] && r.source == w.source
  {
    if pos + len > w.size then Empty() else Shadow(w.source, w.start + pos, len)
  }

  // ---------------------------------------------------------------------
  // Comparisons

  /** The content of a C string: the characters before the first NUL. */
  function UpToNul(s: string): (r: string)
    ensures NUL !in r
    ensures NUL !in s ==> r == s
    ensures exists n | 0 <= n <= |s| :: r == s[..n]
  {
    var n := FindChar(s, NUL, 0);
    assert forall x | x in s[..n] :: x != NUL;
    if NUL !in s then
      assert n == |s| by {
        forall k | 0 <= k < |s|
          ensures s[k] != NUL
        {
          assert s[k] in s;
        }
      }
      assert s[..n] == s;
      s[..n]
    else s[..n]
  }

  /** The character at i of a C string whose characters are s: past the end
      the terminating NUL. */
  function CharAt(s: string, i: nat): char {
    if i < |s| then s[i] else NUL
  }

  /** The loop of `equals(const char*)`, at window position i. */
  function EqualsCStrFrom(t: string, str: string, i: nat): (r: bool)
    requires i <= |t|
    requires forall k | 0 <= k < i :: t[k] != NUL && t[k] == CharAt(str, k)
    ensures r <==> UpToNul(t) == UpToNul(str)
    decreases |t| - i
  {
    if i < |t| && t[i] != NUL then
      if t[i] != CharAt(str, i) then
        DiffersAt(t, str, i);
        false
      else EqualsCStrFrom(t, str, i + 1)
    else
      StopsAt(t, str, i);
      CharAt(str, i) == NUL
  }

  /** A position where both are still inside their contents and differ. */
  lemma DiffersAt(t: string, str: string, i: nat)
    requires i < |t| && t[i] != NUL && t[i] != CharAt(str, i)
    requires forall k | 0 <= k < i :: t[k] != NUL && t[k] == CharAt(str, k)
    ensures UpToNul(t) != UpToNul(str)
  {
    var a := UpToNul(t);
    NulPrefix(t, i + 1);
    assert |a| > i && a[i] == t[i];
    var b := UpToNul(str);
    if a == b {
      NulPrefixOf(str, b, i);
    }
  }

  /** The window content ends at i; the C string's content ends at i too
      exactly when its character there is the terminator. */
  lemma StopsAt(t: string, str: string, i: nat)
    requires i <= |t| && (i == |t| || t[i] == NUL)
    requires forall k | 0 <= k < i :: t[k] != NUL && t[k] == CharAt(str, k)
    ensures UpToNul(t) == UpToNul(str) <==> CharAt(str, i) == NUL
  {
    assert UpToNul(t) == t[..i] by {
      var n := FindChar(t, NUL, 0);
      assert n == i;
    }
    if i <= |str| {
      assert forall k | 0 <= k < i :: str[k] == t[k];
    }
    var n := FindChar(str, NUL, 0);
    if CharAt(str, i) == NUL {
      assert CharAt(str, |str|) == NUL;
      assert i <= |str|;
      assert forall k | 0 <= k < i :: str[k] == t[k] && str[k] != NUL;
      assert n == i;
      assert UpToNul(str) == str[..n];
      assert str[..i] == t[..i];
    } else {
      assert i < |str|;
      assert n > i;
      assert |UpToNul(str)| > i;
    }
  }

  /** Before a first NUL at or beyond i the content is at least i long. */
  lemma NulPrefix(s: string, i: nat)
    requires i <= |s| && forall k | 0 <= k < i :: s[k] != NUL
    ensures |UpToNul(s)| >= i && UpToNul(s)[..i] == s[..i]
  {
    var n := FindChar(s, NUL, 0);
    assert n < |s| ==> s[n] == NUL;
  }

  /** The content ends at the first NUL. */
  lemma UpToNulAt(s: string, n: nat)
    requires n < |s| && s[n] == NUL && forall k | 0 <= k < n :: s[k] != NUL
    ensures UpToNul(s) == s[..n]
  {
    assert FindChar(s, NUL, 0) == n;
  }

  /** A C string whose content is b has b's characters at its indexes. */
  lemma NulPrefixOf(str: string, b: string, i: nat)
    requires b == UpToNul(str) && i < |b|
    ensures CharAt(str, i) == b[i]
  {
    var n := FindChar(str, NUL, 0);
    assert b == str[..n];
  }

  /** `equals(const char* str)`: the window up to its first NUL equals the
      C string's content. */
  function EqualsCStr(w: Shadow, str: string): (r: bool)
    requires w.Valid()
    ensures r <==> UpToNul(w.Text()) == UpToNul(str)
  {
    EqualsCStrFrom(w.Text(), str, 0)
  }

  /** `strncmp(a, b, n) == 0`: the first n characters agree up to and
      including a common NUL, where comparison stops. */
  function StrNCmpZero(a: string, b: string, n: nat): (r: bool)
    requires n <= |a| && n <= |b|
    ensures r <==> UpToNul(a[..n]) == UpToNul(b[..n])
  {
    StrNCmpFrom(a, b, n, 0)
  }

  function StrNCmpFrom(a: string, b: string, n: nat, i: nat): (r: bool)
    requires i <= n <= |a| && n <= |b|
    requires forall k | 0 <= k < i :: a[k] != NUL && a[k] == b[k]
    ensures r <==> UpToNul(a[..n]) == UpToNul(b[..n])
    decreases n - i
  {
    var a', b' := a[..n], b[..n];
    assert forall k | 0 <= k < i :: a'[k] != NUL && a'[k] == CharAt(b', k);
    if i == n then
      StopsAt(a', b', i);
      true
    else if a[i] != b[i] then
      assert a'[i] != CharAt(b', i);
      if a[i] == NUL then
        StopsAt(a', b', i);
        false
      else
        DiffersAt(a', b', i);
        false
    else if a[i] == NUL then
      StopsAt(a', b', i);
      true
    else StrNCmpFrom(a, b, n, i + 1)
  }

  /** `equals(const char* str, size_t size)`, also behind `==` with a
      `std::string` and with another shadow: false on a length mismatch,
      else `strncmp` over the length. */
  function EqualsSized(w: Shadow, other: string): (r: bool)
    requires w.Valid()
    ensures |other| != w.size ==> !r
    ensures NUL !in w.Text() && NUL !in other ==> (r <==> w.Text() == other)
  {
    if |other| != w.size then false
    else
      assert w.Text()[..w.size] == w.Text() && other[..w.size] == other;
      StrNCmpZero(w.Text(), other, w.size)
  }

  /** `strncmp` stops at a NUL, so texts that differ only after an
      embedded NUL compare equal. */
  lemma EqualsSizedStopsAtNul()
    ensures EqualsSized(Shadow("a\0b", 0, 3), "a\0c")
  {
    var w := Shadow("a\0b", 0, 3);
    assert w.Text() == "a\0b";
    UpToNulAt("a\0b", 1);
    UpToNulAt("a\0c", 1);
    assert ("a\0b")[..3] == "a\0b" && ("a\0c")[..3] == "a\0c";
  }

  /** `operator==` with another shadow. */
  function EqualsShadow(w: Shadow, other: Shadow): (r: bool)
    requires w.Valid() && other.Valid()
    ensures NUL !in w.Text() && NUL !in other.Text() ==> (r <==> w.Text() == other.Text())
  {
    EqualsSized(w, other.Text())
  }

  /** `operator!=` with another shadow (and likewise with a `std::string`):
      the negation of `==`. */
  function NotEqualsShadow(w: Shadow, other: Shadow): (r: bool)
    requires w.Valid() && other.Valid()
    ensures NUL !in w.Text() && NUL !in other.Text() ==> (r <==> w.Text() != other.Text())
  {
    !EqualsSized(w, other.Text())
  }

  /** `operator!=` with a C string. */
  function NotEqualsCStr(w: Shadow, str: string): (r: bool)
    requires w.Valid()
    ensures NUL !in w.Text() && NUL !in str ==> (r <==> w.Text() != str)
  {
    !EqualsCStr(w, str)
  }

  /** For NUL-free texts the C-string and the sized comparisons agree. */
  lemma EqualsAgree(w: Shadow, s: string)
    requires w.Valid() && NUL !in w.Text() && NUL !in s
    ensures EqualsCStr(w, s) == EqualsSized(w, s)
  {
  }
}
