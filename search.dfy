/**
 * The C string-search primitives the extractors are built from, as functions
 * on the text of a received buffer (the characters before its NUL terminator).
 *   strstr / memmem  ->  Find
 *   strchr           ->  FindChar
 * A search "from p" in C starts at the pointer p itself, so every search here
 * takes the index it starts at.
 */
module Search {
  import opened Wrappers

  /** The two-character line terminator of RTSP headers. */
  const Crlf: string := "\r\n"

  /** `pat` occurs in `s` starting at index `k`. */
  predicate OccursAt(s: string, pat: string, k: nat)
  {
    k + |pat| <= |s| && s[k..k + |pat|] == pat
  }

  /** `pat` does not start anywhere in `s` at an index in [lo, hi). */
  predicate AbsentBetween(s: string, pat: string, lo: nat, hi: nat)
  {
    forall k :: lo <= k < hi ==> !OccursAt(s, pat, k)
  }

  /** Index of the first occurrence of `pat` in `s` at or after `from` (strstr, memmem). */
  function Find(s: string, pat: string, from: nat): (r: Option<nat>)
    ensures r.Some? ==> from <= r.value && OccursAt(s, pat, r.value)
    ensures r.Some? ==> AbsentBetween(s, pat, from, r.value)
    ensures r.None? ==> AbsentBetween(s, pat, from, |s| + 1)
    decreases |s| - from
  {
    if from + |pat| > |s| then None
    else if OccursAt(s, pat, from) then Some(from)
    else Find(s, pat, from + 1)
  }

  /** Index of the first `c` in `s` at or after `from` (strchr). */
  function FindChar(s: string, c: char, from: nat): (r: Option<nat>)
    ensures r.Some? ==> from <= r.value < |s| && s[r.value] == c
    ensures r.Some? ==> forall k :: from <= k < r.value ==> s[k] != c
    ensures r.None? ==> forall k :: from <= k < |s| ==> s[k] != c
    decreases |s| - from
  {
    if from >= |s| then None
    else if s[from] == c then Some(from)
    else FindChar(s, c, from + 1)
  }

  /**
   * A marker with its last character dropped: the SDP scans pass
   * `strlen(marker) - 1` as the needle length to memmem.
   */
  function Trimmed(marker: string): (r: string)
    requires |marker| > 0
    ensures |r| == |marker| - 1 && marker == r + [marker[|marker| - 1]]
  {
    marker[..|marker| - 1]
  }

  /** The line end searched for with a trimmed needle is its '\r' alone. */
  lemma TrimmedCrlf()
    ensures Trimmed(Crlf) == "\r"
  {
  }

  /** How the end of a delimited value is found, starting from its opening delimiter. */
  datatype Terminator =
    | Semicolon          // strchr(p, ';') only
    | SemicolonElseCrlf  // strchr(p, ';'), and strstr(p, "\r\n") only when no ';' is left

  /** Index of the character that ends a value whose opening delimiter is at `from`. */
  function FindTerminator(s: string, from: nat, t: Terminator): (r: Option<nat>)
    ensures r.Some? ==> from <= r.value < |s|
    ensures r.Some? && s[r.value] == ';' ==> forall k :: from <= k < r.value ==> s[k] != ';'
    ensures r.Some? && s[r.value] != ';' ==>
              t.SemicolonElseCrlf? && OccursAt(s, Crlf, r.value) && AbsentBetween(s, Crlf, from, r.value) &&
              forall k :: from <= k < |s| ==> s[k] != ';'
    ensures r.None? ==>
              (forall k :: from <= k < |s| ==> s[k] != ';') &&
              (t.Semicolon? || AbsentBetween(s, Crlf, from, |s| + 1))
  {
    match FindChar(s, ';', from)
    case Some(k) => Some(k)
    case None =>
      match t
      case Semicolon => None
      case SemicolonElseCrlf => Find(s, Crlf, from)
  }

  /** A character occurrence with no earlier one from `from` on is what strchr finds. */
  lemma FindCharIs(s: string, c: char, from: nat, k: nat)
    requires from <= k < |s| && s[k] == c
    requires forall j :: from <= j < k ==> s[j] != c
    ensures FindChar(s, c, from) == Some(k)
  {
  }

  /** An occurrence with no earlier one from `from` on is what strstr finds. */
  lemma FindIs(s: string, pat: string, from: nat, k: nat)
    requires from <= k && OccursAt(s, pat, k) && AbsentBetween(s, pat, from, k)
    ensures Find(s, pat, from) == Some(k)
  {
  }

  /** A pattern cannot start where its first character is absent. */
  lemma AbsentWhereFirstCharAbsent(s: string, pat: string, lo: nat, hi: nat)
    requires |pat| > 0
    requires forall k :: lo <= k < hi && k < |s| ==> s[k] != pat[0]
    ensures AbsentBetween(s, pat, lo, hi)
  {
    forall k | lo <= k < hi ensures !OccursAt(s, pat, k) {
      if k + |pat| <= |s| {
        assert s[k..k + |pat|][0] == s[k];
      }
    }
  }

  /**
   * In `s == x + mid + y`, searching from the start of `mid` for a character
   * that `mid` does not hold finds the first character of `y`.
   */
  lemma FindCharAfter(s: string, x: string, mid: string, y: string, c: char)
    requires s == x + mid + y
    requires c !in mid && |y| > 0 && y[0] == c
    ensures FindChar(s, c, |x|) == Some(|x| + |mid|)
  {
    forall k | |x| <= k < |x| + |mid| ensures s[k] != c {
      assert s[k] == mid[k - |x|];
    }
    FindCharIs(s, c, |x|, |x| + |mid|);
  }

  /** A text that occurs at `k` is its two parts, occurring one after the other. */
  lemma OccursAtSplit(s: string, k: nat, x: string, y: string)
    requires OccursAt(s, x + y, k)
    ensures OccursAt(s, x, k) && OccursAt(s, y, k + |x|)
  {
    assert s[k..k + |x|] == (x + y)[..|x|];
    assert s[k + |x|..k + |x| + |y|] == (x + y)[|x|..];
  }

  /** Searching from `at` for a character that the text at `at` does not hold finds the one right after it. */
  lemma FindCharPast(s: string, c: char, at: nat, text: string)
    requires OccursAt(s, text + [c], at) && c !in text
    ensures FindChar(s, c, at) == Some(at + |text|)
  {
    OccursAtSplit(s, at, text, [c]);
    forall k | at <= k < at + |text| ensures s[k] != c {
      assert s[k] == s[at..at + |text|][k - at];
    }
    assert s[at + |text|] == s[at + |text|..at + |text| + 1][0];
    FindCharIs(s, c, at, at + |text|);
  }

  /** Searching from `at` for a pattern whose first character the text at `at` does not hold finds the one right after it. */
  lemma FindPast(s: string, pat: string, at: nat, text: string)
    requires OccursAt(s, text + pat, at) && |pat| > 0 && pat[0] !in text
    ensures Find(s, pat, at) == Some(at + |text|)
  {
    OccursAtSplit(s, at, text, pat);
    forall k | at <= k < at + |text| ensures s[k] != pat[0] {
      assert s[k] == s[at..at + |text|][k - at];
    }
    AbsentWhereFirstCharAbsent(s, pat, at, at + |text|);
    FindIs(s, pat, at, at + |text|);
  }

  /** A stretch in which the one-character pattern `[c]` never starts holds no `c`. */
  lemma AbsentCharBetween(s: string, c: char, lo: nat, hi: nat)
    requires lo <= hi <= |s| && AbsentBetween(s, [c], lo, hi)
    ensures c !in s[lo..hi]
  {
    forall k | lo <= k < hi ensures s[k] != c {
      assert !OccursAt(s, [c], k);
      assert s[k..k + 1] == [s[k]];
    }
  }

  /** When `c` occurs at `q` at or after `from`, strchr finds a `c` no later than `q`. */
  lemma FindCharReaches(s: string, c: char, from: nat, q: nat)
    requires from <= q < |s| && s[q] == c
    ensures FindChar(s, c, from).Some? && FindChar(s, c, from).value <= q
  {
  }

  /** When `pat` occurs at `q` at or after `from`, strstr finds an occurrence no later than `q`. */
  lemma FindReaches(s: string, pat: string, from: nat, q: nat)
    requires from <= q && OccursAt(s, pat, q)
    ensures Find(s, pat, from).Some? && Find(s, pat, from).value <= q
  {
  }

  /** A pattern that occurs nowhere is not found. */
  lemma FindMissing(s: string, pat: string, from: nat)
    requires forall k :: !OccursAt(s, pat, k)
    ensures Find(s, pat, from) == None
  {
  }
}
