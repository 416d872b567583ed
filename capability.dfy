/**
 * The OPTIONS capability matcher: does a command name appear as a whole token
 * of a Public-header style list (section 12.28 of RFC 2326)? Tokens are
 * separated by any mix of ' ', ',', ';' and ':'.
 */
module Capability {
  import opened Wrappers

  /** isSeparator: the characters that may stand between command names. */
  predicate IsSeparator(c: char)
  {
    c == ' ' || c == ',' || c == ';' || c == ':'
  }

  /** A character of a method name: a letter, a digit, '_' or '-'. */
  predicate IsNameChar(c: char)
  {
    'A' <= c <= 'Z' || 'a' <= c <= 'z' || '0' <= c <= '9' || c == '_' || c == '-'
  }

  /** isSeparator is false for NUL and for every character of a method name. */
  lemma SeparatorsAre(c: char)
    ensures c == '\0' || IsNameChar(c) ==> !IsSeparator(c)
  {
  }

  predicate NoSeparator(s: string)
  {
    forall i :: 0 <= i < |s| ==> !IsSeparator(s[i])
  }

  /** Index of the first separator of `s` at or after `i`, or |s|: where the token at `i` ends. */
  function TokenEnd(s: string, i: nat): (j: nat)
    requires i <= |s|
    ensures i <= j <= |s| && (j == |s| || IsSeparator(s[j]))
    ensures forall k :: i <= k < j ==> !IsSeparator(s[k])
    decreases |s| - i
  {
    if i == |s| || IsSeparator(s[i]) then i else TokenEnd(s, i + 1)
  }

  /** The command names listed in `s` from index `i` on: its maximal runs of non-separators. */
  function TokensFrom(s: string, i: nat): (ts: seq<string>)
    requires i <= |s|
    ensures forall k :: 0 <= k < |ts| ==> |ts[k]| > 0 && NoSeparator(ts[k])
    decreases |s| - i
  {
    if i == |s| then []
    else if IsSeparator(s[i]) then TokensFrom(s, i + 1)
    else
      var j := TokenEnd(s, i);
      [s[i..j]] + TokensFrom(s, j)
  }

  /** The command names listed in `s`, in order. */
  function Tokens(s: string): seq<string>
  {
    TokensFrom(s, 0)
  }

  /** A token of `s` starts at index `i`. */
  predicate TokenStart(s: string, i: nat)
  {
    i < |s| && !IsSeparator(s[i]) && (i == 0 || IsSeparator(s[i - 1]))
  }

  /** `name` occurs in `s` at `i` and is followed by the end of `s` or by a separator. */
  predicate WholeMatchAt(s: string, name: string, i: nat)
  {
    i + |name| <= |s| && s[i..i + |name|] == name &&
    (i + |name| == |s| || IsSeparator(s[i + |name|]))
  }

  /** A run of non-separators from `i` that is ended by a separator or the end is a whole token. */
  lemma {:induction false} TokenEndIs(s: string, i: nat, j: nat)
    requires i <= j <= |s| && (j == |s| || IsSeparator(s[j]))
    requires forall k :: i <= k < j ==> !IsSeparator(s[k])
    ensures TokenEnd(s, i) == j
    decreases j - i
  {
    if i < j { TokenEndIs(s, i + 1, j); }
  }

  /** The token of `s` that starts at `t` and ends at `j` comes first among the tokens from `t`. */
  lemma SplitTokenAt(s: string, t: nat, j: nat)
    requires t < j <= |s| && (j == |s| || IsSeparator(s[j]))
    requires forall k :: t <= k < j ==> !IsSeparator(s[k])
    ensures TokensFrom(s, t) == [s[t..j]] + TokensFrom(s, j)
  {
    TokenEndIs(s, t, j);
  }

  /** A list that is empty or holds only separators names no command. */
  lemma {:induction false} TokensOfSeparators(s: string, i: nat)
    requires i <= |s|
    requires forall k :: i <= k < |s| ==> IsSeparator(s[k])
    ensures TokensFrom(s, i) == []
    decreases |s| - i
  {
    if i < |s| { TokensOfSeparators(s, i + 1); }
  }

  /** Line 23: the index of the first non-separator of `s` at or after `i`, or |s|. */
  method SkipSeparators(s: string, i: nat) returns (j: nat)
    requires i <= |s|
    ensures i <= j <= |s| && (j == |s| || !IsSeparator(s[j]))
    ensures forall k :: i <= k < j ==> IsSeparator(s[k])
    ensures TokensFrom(s, j) == TokensFrom(s, i)
  {
    j := i;
    while j < |s| && IsSeparator(s[j])
      invariant i <= j <= |s|
      invariant forall k :: i <= k < j ==> IsSeparator(s[k])
      invariant TokensFrom(s, j) == TokensFrom(s, i)
    {
      j := j + 1;
    }
  }

  /** Line 34: the index of the first separator of `s` at or after `i`, or |s|. */
  method SkipToken(s: string, i: nat) returns (j: nat)
    requires i <= |s|
    ensures i <= j <= |s| && (j == |s| || IsSeparator(s[j]))
    ensures forall k :: i <= k < j ==> !IsSeparator(s[k])
  {
    j := i;
    while j < |s| && !IsSeparator(s[j])
      invariant i <= j <= |s|
      invariant forall k :: i <= k < j ==> !IsSeparator(s[k])
    {
      j := j + 1;
    }
  }

  /**
   * RTSPOptionIsSupported. `None` stands for a NULL pointer. A match is only
   * ever reported at a token start with a separator or the end right after it;
   * for a command name without separators the answer is exactly whether the
   * name is one of the listed tokens.
   */
  method OptionIsSupported(commandName: Option<string>, optionsResponse: Option<string>)
    returns (supported: bool)
    ensures supported ==>
              commandName.Some? && optionsResponse.Some? && |commandName.value| > 0 &&
              exists i :: TokenStart(optionsResponse.value, i) &&
                          WholeMatchAt(optionsResponse.value, commandName.value, i)
    ensures commandName.Some? && optionsResponse.Some? && NoSeparator(commandName.value) ==>
              (supported <==> |commandName.value| > 0 && commandName.value in Tokens(optionsResponse.value))
  {
    if commandName.None? || optionsResponse.None? {
      return false;
    }
    var name, opts := commandName.value, optionsResponse.value;
    var n := |name|;
    if n == 0 {
      return false;
    }
    ghost var plain := NoSeparator(name);
    ghost var listed := plain && name in Tokens(opts);
    var i := 0;
    while true
      invariant 0 <= i <= |opts|
      invariant i == 0 || i == |opts| || IsSeparator(opts[i])
      invariant plain ==> (listed <==> name in TokensFrom(opts, i))
      decreases |opts| - i
    {
      i := SkipSeparators(opts, i);
      if i == |opts| {
        return false;
      }
      ghost var start := i;
      assert TokenStart(opts, start);
      if i + n <= |opts| && opts[i..i + n] == name {
        // At least a partial match.
        i := i + n;
        if i == |opts| || IsSeparator(opts[i]) {
          assert WholeMatchAt(opts, name, start);
          if plain {
            SplitTokenAt(opts, start, i);
          }
          return true;
        }
      }
      // No match: skip over the rest of the command name.
      assert !WholeMatchAt(opts, name, start);
      i := SkipToken(opts, i);
      if plain {
        SplitTokenAt(opts, start, i);
        MissedToken(opts, name, start, i);
      }
    }
  }

  /** A whole token that the name does not match at its start is not the name. */
  lemma MissedToken(s: string, name: string, t: nat, j: nat)
    requires t < j <= |s| && (j == |s| || IsSeparator(s[j]))
    requires !WholeMatchAt(s, name, t)
    ensures s[t..j] != name
  {
  }

  /** A token `w` of `s` spanning [t, j) comes first among the tokens from `t`. */
  lemma TokenIs(s: string, t: nat, j: nat, w: string)
    requires t < j <= |s| && s[t..j] == w && NoSeparator(w)
    requires j == |s| || IsSeparator(s[j])
    ensures TokensFrom(s, t) == [w] + TokensFrom(s, j)
  {
    forall k | t <= k < j ensures !IsSeparator(s[k]) {
      assert s[k] == w[k - t];
    }
    SplitTokenAt(s, t, j);
  }

  /** Where a token ends depends only on the text from its start on. */
  lemma {:induction false} TokenEndShift(p: string, q: string, i: nat)
    requires i <= |q|
    ensures TokenEnd(p + q, |p| + i) == |p| + TokenEnd(q, i)
    decreases |q| - i
  {
    if i < |q| {
      assert (p + q)[|p| + i] == q[i];
      TokenEndShift(p, q, i + 1);
    }
  }

  /** The tokens from an index depend only on the text from that index on. */
  lemma {:induction false} TokensFromShift(p: string, q: string, i: nat)
    requires i <= |q|
    ensures TokensFrom(p + q, |p| + i) == TokensFrom(q, i)
    decreases |q| - i
  {
    if i < |q| {
      assert (p + q)[|p| + i] == q[i];
      if IsSeparator(q[i]) {
        TokensFromShift(p, q, i + 1);
      } else {
        var j := TokenEnd(q, i);
        TokenEndShift(p, q, i);
        assert (p + q)[|p| + i..|p| + j] == q[i..j];
        TokensFromShift(p, q, j);
      }
    }
  }

  /** A list of command names as a server writes it in a Public header: joined by ", ". */
  function JoinNames(names: seq<string>): string
  {
    if |names| == 0 then ""
    else if |names| == 1 then names[0]
    else names[0] + ", " + JoinNames(names[1..])
  }

  /** Splitting a joined list of non-empty, separator-free names gives the names back. */
  lemma {:induction false} TokensOfJoinNames(names: seq<string>)
    requires forall k :: 0 <= k < |names| ==> |names[k]| > 0 && NoSeparator(names[k])
    ensures Tokens(JoinNames(names)) == names
  {
    if |names| == 1 {
      var w := names[0];
      TokenIs(w, 0, |w|, w);
    } else if |names| > 1 {
      var w, rest := names[0], JoinNames(names[1..]);
      var s := w + ", " + rest;
      assert s[..|w|] == w;
      TokenIs(s, 0, |w|, w);
      assert s[|w|] == ',' && s[|w| + 1] == ' ';
      assert s == (w + ", ") + rest;
      TokensFromShift(w + ", ", rest, 0);
      TokensOfJoinNames(names[1..]);
    }
  }

  /**
   * The method names of section 10 of RFC 2326 hold no separator, so for
   * each of them OptionIsSupported answers exactly whether it is listed.
   */
  lemma MethodNamesHaveNoSeparator()
    ensures forall name | name in RtspMethods :: |name| > 0 && NoSeparator(name)
  {
    forall name | name in RtspMethods ensures |name| > 0 && NoSeparator(name) {
      forall i | 0 <= i < |name| ensures !IsSeparator(name[i]) {
        assert IsNameChar(name[i]);
        SeparatorsAre(name[i]);
      }
    }
  }

  /** The request methods of RFC 2326, section 10. */
  const RtspMethods: seq<string> := ["DESCRIBE", "ANNOUNCE", "GET_PARAMETER", "OPTIONS", "PAUSE", "PLAY",
                                     "RECORD", "REDIRECT", "SETUP", "SET_PARAMETER", "TEARDOWN"]

  /** A short Public header: "SETUP" is listed, while "SETUPX" and "ETUP" are not. */
  lemma PublicHeaderExample()
    ensures Tokens("SETUP, PLAY") == ["SETUP", "PLAY"]
    ensures "SETUP" in Tokens("SETUP, PLAY")
    ensures "SETUPX" !in Tokens("SETUP, PLAY") && "ETUP" !in Tokens("SETUP, PLAY")
  {
    var names := ["SETUP", "PLAY"];
    assert JoinNames(names) == "SETUP, PLAY" by {
      assert names[1..] == ["PLAY"];
    }
    TokensOfJoinNames(names);
  }
}
