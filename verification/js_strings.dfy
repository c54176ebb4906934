/**
 * The JavaScript string built-ins the modelled code relies on:
 * `trim`, `split` on a one-character separator, `includes` and `toLowerCase`.
 */
module JsStrings {

  /** The WhiteSpace and LineTerminator code points of ECMAScript, which `String.prototype.trim` strips. */
  predicate IsWhitespace(c: char) {
    c in WhitespaceChars
  }

  const WhitespaceChars: set<char> := {'\t', '\n', '\U{000B}', '\U{000C}', '\r', ' ', '\U{00A0}', '\U{1680}',
    '\U{2000}', '\U{2001}', '\U{2002}', '\U{2003}', '\U{2004}', '\U{2005}', '\U{2006}', '\U{2007}',
    '\U{2008}', '\U{2009}', '\U{200A}', '\U{2028}', '\U{2029}', '\U{202F}', '\U{205F}', '\U{3000}', '\U{FEFF}'}

  predicate AllWhitespace(s: string) {
    forall k :: 0 <= k < |s| ==> IsWhitespace(s[k])
  }

  /** A string is trimmed when it neither starts nor ends with whitespace. */
  predicate IsTrimmed(s: string) {
    s == [] || (!IsWhitespace(s[0]) && !IsWhitespace(s[|s| - 1]))
  }

  /** `s.trim()`: leading and trailing whitespace removed, one character at a time. */
  function Trim(s: string): string
    decreases |s|
  {
    if |s| > 0 && IsWhitespace(s[0]) then Trim(s[1..])
    else if |s| > 0 && IsWhitespace(s[|s| - 1]) then Trim(s[..|s| - 1])
    else s
  }

  /** The trim of `s` is a trimmed slice of `s` with only whitespace around it. */
  lemma {:induction false} TrimSpec(s: string)
    ensures IsTrimmed(Trim(s))
    ensures exists i :: TrimmedAt(s, Trim(s), i)
    decreases |s|
  {
    var r := Trim(s);
    if |s| > 0 && IsWhitespace(s[0]) {
      TrimSpec(s[1..]);
      var i :| TrimmedAt(s[1..], r, i);
      assert [s[0]] + s[1..] == s;
      TrimmedAtPadded([s[0]], s[1..], r, i);
    } else if |s| > 0 && IsWhitespace(s[|s| - 1]) {
      TrimSpec(s[..|s| - 1]);
      var i :| TrimmedAt(s[..|s| - 1], r, i);
      TrimmedAtUnpadded(s, r, i);
    } else {
      assert TrimmedAt(s, s, 0);
    }
  }

  /** Whitespace put in front keeps a slice surrounded by whitespace. */
  lemma TrimmedAtPadded(pad: string, s: string, r: string, i: int)
    requires AllWhitespace(pad) && TrimmedAt(s, r, i)
    ensures TrimmedAt(pad + s, r, |pad| + i)
  {
    var ps := pad + s;
    assert forall k :: |pad| <= k < |ps| ==> ps[k] == s[k - |pad|];
    assert ps[|pad| + i..|pad| + i + |r|] == s[i..i + |r|];
  }

  /** A slice surrounded by whitespace in all but a last whitespace character is surrounded by whitespace in the whole. */
  lemma TrimmedAtUnpadded(s: string, r: string, i: int)
    requires |s| > 0 && IsWhitespace(s[|s| - 1]) && TrimmedAt(s[..|s| - 1], r, i)
    ensures TrimmedAt(s, r, i)
  {
    var t := s[..|s| - 1];
    assert forall k :: 0 <= k < |t| ==> t[k] == s[k];
    assert t[i..i + |r|] == s[i..i + |r|];
  }

  /** `r` is the slice of `s` starting at `i`, and only whitespace lies around it. */
  predicate TrimmedAt(s: string, r: string, i: int) {
    && 0 <= i <= |s| - |r|
    && r == s[i..i + |r|]
    && (forall k :: 0 <= k < i ==> IsWhitespace(s[k]))
    && (forall k :: i + |r| <= k < |s| ==> IsWhitespace(s[k]))
  }

  /** A trimmed result is empty exactly when the input is whitespace only. */
  lemma {:induction false} TrimEmptyIff(s: string)
    ensures Trim(s) == [] <==> AllWhitespace(s)
  {
    var r := Trim(s);
    TrimSpec(s);
    var i :| TrimmedAt(s, r, i);
    if r != [] {
      assert s[i] == r[0];
    }
  }

  /** `Trim` is determined by its contract: any trimmed slice surrounded by whitespace is the result. */
  lemma TrimUnique(s: string, r: string, i: int)
    requires IsTrimmed(r) && TrimmedAt(s, r, i)
    ensures Trim(s) == r
  {
    var r' := Trim(s);
    TrimSpec(s);
    var i' :| TrimmedAt(s, r', i');
    TrimEmptyIff(s);
    if r != [] {
      assert r' != [] by {
        assert s[i] == r[0];
      }
      TrimmedAtSameSlice(s, r, i, r', i');
    }
  }

  /** Two non-empty trimmed slices surrounded by whitespace start and end at the same place. */
  lemma TrimmedAtSameSlice(s: string, r: string, i: int, r': string, i': int)
    requires r != [] && IsTrimmed(r) && TrimmedAt(s, r, i)
    requires r' != [] && IsTrimmed(r') && TrimmedAt(s, r', i')
    ensures r == r'
  {
    assert i == i' by {
      assert s[i] == r[0] && s[i'] == r'[0];
    }
    assert |r| == |r'| by {
      assert s[i + |r| - 1] == r[|r| - 1] && s[i' + |r'| - 1] == r'[|r'| - 1];
    }
  }

  /** Trimming a trimmed string changes nothing. */
  lemma {:induction false} TrimOfTrimmed(s: string)
    requires IsTrimmed(s)
    ensures Trim(s) == s
  {
    assert TrimmedAt(s, s, 0);
    TrimUnique(s, s, 0);
  }

  /** Trimming is idempotent. */
  lemma {:induction false} TrimIdempotent(s: string)
    ensures Trim(Trim(s)) == Trim(s)
  {
    TrimSpec(s);
    TrimOfTrimmed(Trim(s));
  }

  /** `t` occurs in `s` at position `i`. */
  predicate OccursAt(s: string, t: string, i: int) {
    0 <= i <= |s| - |t| && s[i..i + |t|] == t
  }

  /** `s.includes(t)`: a prefix of `s` is `t`, or the rest of `s` includes `t`. */
  function Contains(s: string, t: string): bool
    decreases |s|
  {
    if |t| > |s| then false
    else if s[..|t|] == t then true
    else Contains(s[1..], t)
  }

  /** `s` includes `t` exactly when some position of `s` starts an occurrence of `t`. */
  lemma {:induction false} ContainsSpec(s: string, t: string)
    ensures Contains(s, t) <==> exists i :: OccursAt(s, t, i)
    decreases |s|
  {
    if |t| > |s| {
    } else if s[..|t|] == t {
      assert OccursAt(s, t, 0);
    } else {
      ContainsSpec(s[1..], t);
      if exists i :: OccursAt(s[1..], t, i) {
        var i :| OccursAt(s[1..], t, i);
        assert s[1..][i..i + |t|] == s[i + 1..i + 1 + |t|];
        assert OccursAt(s, t, i + 1);
      }
      if exists i :: OccursAt(s, t, i) {
        var i :| OccursAt(s, t, i);
        assert i != 0;
        assert s[1..][i - 1..i - 1 + |t|] == s[i..i + |t|];
        assert OccursAt(s[1..], t, i - 1);
      }
    }
  }

  /** ASCII case folding of one character. */
  function LowerChar(c: char): char {
    if 'A' <= c <= 'Z' then (c as int + 32) as char else c
  }

  /** `s.toLowerCase()`, restricted to the ASCII letters. */
  function ToLower(s: string): (r: string)
    ensures |r| == |s|
  {
    seq(|s|, i requires 0 <= i < |s| => LowerChar(s[i]))
  }

  /** A string without upper-case ASCII letters is its own lower case. */
  lemma ToLowerOfLower(s: string)
    requires forall k :: 0 <= k < |s| ==> !('A' <= s[k] <= 'Z')
    ensures ToLower(s) == s
  {
  }

  /** Lower-casing is idempotent. */
  lemma ToLowerIdempotent(s: string)
    ensures ToLower(ToLower(s)) == ToLower(s)
  {
  }

  /** The inverse of `Split`: the pieces glued back with the separator between them. */
  function Join(pieces: seq<string>, sep: char): string
    requires |pieces| > 0
  {
    if |pieces| == 1 then pieces[0] else pieces[0] + [sep] + Join(pieces[1..], sep)
  }

  /** The number of occurrences of `c` in `s`. */
  function Count(s: string, c: char): nat {
    if |s| == 0 then 0 else (if s[0] == c then 1 else 0) + Count(s[1..], c)
  }

  /** Counting distributes over concatenation; a string without `c` counts zero. */
  lemma {:induction false} CountAppend(a: string, b: string, c: char)
    ensures Count(a + b, c) == Count(a, c) + Count(b, c)
    ensures c !in a ==> Count(a, c) == 0
  {
    if |a| == 0 {
      assert a + b == b;
    } else {
      assert (a + b)[0] == a[0];
      assert (a + b)[1..] == a[1..] + b;
      CountAppend(a[1..], b, c);
      assert c !in a ==> c !in a[1..];
    }
  }

  /** The position of the first `sep` in `s`, or `|s|` when there is none. */
  function IndexOf(s: string, sep: char): (i: nat)
    ensures i <= |s|
    ensures sep !in s[..i]
    ensures i < |s| ==> s[i] == sep
  {
    if |s| == 0 || s[0] == sep then 0
    else
      var j := IndexOf(s[1..], sep);
      assert s[..j + 1] == [s[0]] + s[1..][..j];
      j + 1
  }

  /** The first separator is the only position with a separator before which there is none. */
  lemma IndexOfUnique(s: string, sep: char, j: nat)
    requires j <= |s| && sep !in s[..j]
    requires j < |s| ==> s[j] == sep
    ensures IndexOf(s, sep) == j
  {
  }

  /** `s.split(sep)` for a one-character separator: the text before the first separator, then the split of the rest. */
  function Split(s: string, sep: char): seq<string>
    decreases |s|
  {
    var i := IndexOf(s, sep);
    if i == |s| then [s] else [s[..i]] + Split(s[i + 1..], sep)
  }

  /** There is one piece more than there are separators, and no piece holds the separator. */
  lemma {:induction false} SplitPieces(s: string, sep: char)
    ensures |Split(s, sep)| == Count(s, sep) + 1
    ensures forall k :: 0 <= k < |Split(s, sep)| ==> sep !in Split(s, sep)[k]
    decreases |s|
  {
    var i := IndexOf(s, sep);
    if i == |s| {
      assert s[..i] == s;
      CountAppend(s, [], sep);
      assert s + [] == s;
    } else {
      var head, rest := s[..i], s[i + 1..];
      SplitPieces(rest, sep);
      assert s == head + ([sep] + rest);
      CountAppend(head, [sep] + rest, sep);
      assert ([sep] + rest)[1..] == rest;
      assert Count([sep] + rest, sep) == 1 + Count(rest, sep);
      assert Split(s, sep) == [head] + Split(rest, sep);
    }
  }

  /** Joining a piece in front of others puts one separator between them. */
  lemma JoinCons(p: string, rest: seq<string>, sep: char)
    requires |rest| > 0
    ensures Join([p] + rest, sep) == p + [sep] + Join(rest, sep)
  {
    assert ([p] + rest)[1..] == rest;
  }

  /** Joining the pieces of a split gives the string back. */
  lemma {:induction false} JoinSplit(s: string, sep: char)
    ensures Join(Split(s, sep), sep) == s
    decreases |s|
  {
    var i := IndexOf(s, sep);
    if i == |s| {
      assert s[..i] == s;
    } else {
      JoinSplit(s[i + 1..], sep);
      JoinCons(s[..i], Split(s[i + 1..], sep), sep);
      assert s == s[..i] + [sep] + s[i + 1..];
    }
  }

  /** A string without the separator is a single piece. */
  lemma SplitNoSeparator(s: string, sep: char)
    requires sep !in s
    ensures Split(s, sep) == [s]
  {
    assert s[..|s|] == s;
  }

  /** Splitting distributes over a separator: the pieces of `x` come before those of `y`. */
  lemma {:induction false} SplitAppend(x: string, y: string, sep: char)
    ensures Split(x + [sep] + y, sep) == Split(x, sep) + Split(y, sep)
    decreases |x|
  {
    var i := IndexOf(x, sep);
    if i == |x| {
      SplitAppendNoSeparator(x, y, sep);
    } else {
      SplitAppend(x[i + 1..], y, sep);
      SplitAppendAtSeparator(x, y, sep, i);
    }
  }

  /** The base case of `SplitAppend`: `x` is a single piece. */
  lemma SplitAppendNoSeparator(x: string, y: string, sep: char)
    requires IndexOf(x, sep) == |x|
    ensures Split(x + [sep] + y, sep) == Split(x, sep) + Split(y, sep)
  {
    var s := x + [sep] + y;
    assert x[..|x|] == x;
    assert s[..|x|] == x;
    IndexOfUnique(s, sep, |x|);
    assert s[|x| + 1..] == y;
    SplitNoSeparator(x, sep);
  }

  /** A string whose first separator closes `head` splits into `head` and the pieces of `rest`. */
  lemma SplitAt(s: string, sep: char, head: string, rest: string)
    requires s == head + [sep] + rest && sep !in head
    ensures Split(s, sep) == [head] + Split(rest, sep)
  {
    var i := |head|;
    assert s[..i] == head && s[i] == sep && s[i + 1..] == rest;
    IndexOfUnique(s, sep, i);
  }

  /** The inductive step of `SplitAppend`: `x` has a first piece ending at `i`. */
  lemma SplitAppendAtSeparator(x: string, y: string, sep: char, i: nat)
    requires i < |x| && x[i] == sep && sep !in x[..i]
    requires Split(x[i + 1..] + [sep] + y, sep) == Split(x[i + 1..], sep) + Split(y, sep)
    ensures Split(x + [sep] + y, sep) == Split(x, sep) + Split(y, sep)
  {
    var head, rest := x[..i], x[i + 1..];
    assert x == head + [sep] + rest;
    SplitAt(x, sep, head, rest);
    assert x + [sep] + y == head + [sep] + (rest + [sep] + y);
    SplitAt(x + [sep] + y, sep, head, rest + [sep] + y);
    ConsAssociative(head, Split(rest, sep), Split(y, sep));
  }

  lemma ConsAssociative<T>(a: T, b: seq<T>, c: seq<T>)
    ensures [a] + (b + c) == ([a] + b) + c
  {
  }

  /** `Split` inverts `Join` for pieces that do not hold the separator. */
  lemma {:induction false} SplitJoin(pieces: seq<string>, sep: char)
    requires |pieces| > 0
    requires forall k :: 0 <= k < |pieces| ==> sep !in pieces[k]
    ensures Split(Join(pieces, sep), sep) == pieces
  {
    SplitNoSeparator(pieces[0], sep);
    if |pieces| > 1 {
      SplitJoin(pieces[1..], sep);
      SplitAppend(pieces[0], Join(pieces[1..], sep), sep);
      assert pieces == [pieces[0]] + pieces[1..];
    }
  }
}
