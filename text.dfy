/**
 The three Python string operations the window relies on, over `string`
 (a sequence of Unicode scalar values):
 - `s.split(sep)` with one separator character,
 - `s.split()` with no argument (runs of whitespace separate words),
 - `s.upper()`, as far as it can produce ASCII.
 */
module Text {
  import opened Wrappers

  /** `t` occurs somewhere in `s`. */
  ghost predicate Contains(s: string, t: string)
  {
    exists i :: OccursAt(s, t, i)
  }

  /** `t` occurs in `s` starting at index `i`. */
  predicate OccursAt(s: string, t: string, i: int)
  {
    0 <= i <= |s| - |t| && s[i..i + |t|] == t
  }

  /** `t` is a final segment of `s`. */
  predicate EndsWith(s: string, t: string)
  {
    |t| <= |s| && s[|s| - |t|..] == t
  }

  // ---------------------------------------------------------------------------
  // str.split(sep)
  // ---------------------------------------------------------------------------

  /** `s.split(sep)`: the pieces between separators, empty pieces included. */
  function Split(s: string, sep: char): (parts: seq<string>)
    ensures |parts| >= 1
    decreases |s|
  {
    if s == [] then [[]]
    else
      var rest := Split(s[1..], sep);
      if s[0] == sep then [[]] + rest
      else [[s[0]] + rest[0]] + rest[1..]
  }

  /** `sep.join(parts)`, the inverse of `Split`. */
  function Join(parts: seq<string>, sep: char): string
    requires |parts| >= 1
    decreases |parts|
  {
    if |parts| == 1 then parts[0] else parts[0] + [sep] + Join(parts[1..], sep)
  }

  /** Joining the pieces back with the separator gives the original string. */
  lemma {:induction false} JoinSplit(s: string, sep: char)
    ensures Join(Split(s, sep), sep) == s
    decreases |s|
  {
    if s != [] {
      var rest := Split(s[1..], sep);
      JoinSplit(s[1..], sep);
      if s[0] == sep {
        assert Split(s, sep)[1..] == rest;
      } else {
        var parts := Split(s, sep);
        assert parts[0] == [s[0]] + rest[0];
        if |rest| == 1 {
          assert Join(parts, sep) == [s[0]] + rest[0];
        } else {
          assert parts[1..] == rest[1..];
          assert Join(rest, sep) == rest[0] + [sep] + Join(rest[1..], sep);
        }
      }
    }
  }

  /** No piece contains the separator. */
  lemma {:induction false} SplitPartsLackSeparator(s: string, sep: char)
    ensures forall i :: 0 <= i < |Split(s, sep)| ==> sep !in Split(s, sep)[i]
    decreases |s|
  {
    if s != [] {
      SplitPartsLackSeparator(s[1..], sep);
    }
  }

  /** `s.split(sep)[-1]`. */
  function LastPart(s: string, sep: char): string
  {
    var parts := Split(s, sep);
    parts[|parts| - 1]
  }

  /** There is a single piece exactly when the separator does not occur. */
  lemma {:induction false} SplitSingle(s: string, sep: char)
    ensures (|Split(s, sep)| == 1) == (sep !in s)
    decreases |s|
  {
    if s != [] {
      SplitSingle(s[1..], sep);
      assert sep in s <==> s[0] == sep || sep in s[1..];
    }
  }

  /** Without a separator the whole string is the one piece. */
  lemma {:induction false} SplitWithoutSeparator(s: string, sep: char)
    requires sep !in s
    ensures Split(s, sep) == [s]
    decreases |s|
  {
    if s != [] {
      assert sep !in s[1..];
      SplitWithoutSeparator(s[1..], sep);
      assert [s[0]] + s[1..] == s;
    }
  }

  /** Dropping a first character that is not the last separator keeps the last piece. */
  lemma LastPartOfTail(s: string, sep: char)
    requires s != [] && (s[0] == sep || sep in s[1..])
    ensures LastPart(s, sep) == LastPart(s[1..], sep)
  {
    if s[0] != sep {
      SplitSingle(s[1..], sep);
    }
  }

  /** The last piece is the part of `s` after its last separator (all of `s`
      when there is none). */
  lemma {:induction false} LastPartIsTail(s: string, sep: char)
    ensures EndsWith(s, LastPart(s, sep))
    ensures sep !in LastPart(s, sep)
    ensures |LastPart(s, sep)| < |s| ==> s[|s| - |LastPart(s, sep)| - 1] == sep
    decreases |s|
  {
    if sep !in s {
      SplitWithoutSeparator(s, sep);
    } else {
      var r := LastPart(s[1..], sep);
      LastPartOfTail(s, sep);
      LastPartIsTail(s[1..], sep);
      assert s[1..][|s| - 1 - |r|..] == s[|s| - |r|..];
      if sep in s[1..] {
        assert r != s[1..];
        assert s[1..][|s| - 1 - |r| - 1] == sep;
      } else {
        SplitWithoutSeparator(s[1..], sep);
      }
    }
  }

  /** The piece after a final separator is everything following it. */
  lemma LastPartAfterSeparator(a: string, sep: char, t: string)
    requires sep !in t
    ensures LastPart(a + [sep] + t, sep) == t
  {
    var s := a + [sep] + t;
    LastPartIsTail(s, sep);
    assert s[|a|] == sep && s[|a| + 1..] == t;
  }

  /** The three facts of `LastPartIsTail` determine the last piece: it is
      the one separator-free suffix that is all of `s` or follows a
      separator. */
  lemma LastPartUnique(s: string, sep: char, x: string)
    requires EndsWith(s, x) && sep !in x
    requires |x| == |s| || s[|s| - |x| - 1] == sep
    ensures x == LastPart(s, sep)
  {
    LastPartIsTail(s, sep);
    var l := LastPart(s, sep);
    assert forall k :: |s| - |l| <= k < |s| ==> s[k] == l[k - (|s| - |l|)];
    assert forall k :: |s| - |x| <= k < |s| ==> s[k] == x[k - (|s| - |x|)];
    assert |x| == |l|;
  }

  /** Appending text without a separator extends the last piece. */
  lemma LastPartAppend(a: string, t: string, sep: char)
    requires sep !in t
    ensures LastPart(a + t, sep) == LastPart(a, sep) + t
  {
    LastPartIsTail(a, sep);
    var l := LastPart(a, sep);
    var s, x := a + t, l + t;
    assert s[|s| - |x|..] == a[|a| - |l|..] + t;
    if |l| < |a| {
      assert s[|s| - |x| - 1] == a[|a| - |l| - 1];
    }
    LastPartUnique(s, sep, x);
  }

  // ---------------------------------------------------------------------------
  // str.split() with no argument
  // ---------------------------------------------------------------------------

  /** Python's `str.isspace` for one character. */
  predicate IsSpace(c: char)
  {
    || '\t' <= c <= '\r'
    || '\U{1C}' <= c <= ' '
    || c == '\U{85}' || c == '\U{A0}' || c == '\U{1680}'
    || '\U{2000}' <= c <= '\U{200A}'
    || c == '\U{2028}' || c == '\U{2029}' || c == '\U{202F}' || c == '\U{205F}'
    || c == '\U{3000}'
  }

  predicate NoSpace(s: string)
  {
    forall i :: 0 <= i < |s| ==> !IsSpace(s[i])
  }

  /** Length of the run of non-space characters that starts `s`. */
  function WordLength(s: string): (n: nat)
    ensures n <= |s|
    ensures NoSpace(s[..n])
    ensures n < |s| ==> IsSpace(s[n])
  {
    if s == [] || IsSpace(s[0]) then 0
    else
      var n := 1 + WordLength(s[1..]);
      assert s[..n] == [s[0]] + s[1..][..n - 1];
      n
  }

  /** `s.split()`: the maximal runs of non-space characters, in order. */
  function Words(s: string): (words: seq<string>)
    ensures forall i :: 0 <= i < |words| ==> words[i] != [] && NoSpace(words[i])
    decreases |s|
  {
    if s == [] then []
    else if IsSpace(s[0]) then Words(s[1..])
    else
      var n := WordLength(s);
      [s[..n]] + Words(s[n..])
  }

  /** `s.split()[-1]`, or `None` where Python raises `IndexError`. */
  function LastWord(s: string): (r: Option<string>)
    ensures r.None? <==> AllSpace(s)
    ensures r.Some? ==> r.value != [] && NoSpace(r.value)
  {
    WordsEmptyIffAllSpace(s);
    var words := Words(s);
    if words == [] then None else Some(words[|words| - 1])
  }

  lemma {:induction false} WordLengthOfWord(w: string)
    requires NoSpace(w)
    ensures WordLength(w) == |w|
    decreases |w|
  {
    if w != [] {
      WordLengthOfWord(w[1..]);
    }
  }

  lemma {:induction false} WordLengthStopsAtSpace(a: string, t: string)
    requires t != [] && IsSpace(t[0])
    ensures WordLength(a + t) == WordLength(a)
    decreases |a|
  {
    if a != [] {
      assert (a + t)[1..] == a[1..] + t;
      WordLengthStopsAtSpace(a[1..], t);
    }
  }

  /** Every character of `s` is whitespace. */
  predicate AllSpace(s: string)
  {
    forall i :: 0 <= i < |s| ==> IsSpace(s[i])
  }

  /** A word ends no later than the first whitespace in it. */
  lemma {:induction false} WordLengthBeforeSpace(s: string, i: nat)
    requires i < |s| && IsSpace(s[i])
    ensures WordLength(s) <= i
    decreases i
  {
    if !IsSpace(s[0]) {
      WordLengthBeforeSpace(s[1..], i - 1);
    }
  }

  /** A word that ends inside `s` is not lengthened by appending to `s`. */
  lemma {:induction false} WordLengthExtend(s: string, t: string)
    requires WordLength(s) < |s|
    ensures WordLength(s + t) == WordLength(s)
    decreases |s|
  {
    if !IsSpace(s[0]) {
      assert (s + t)[1..] == s[1..] + t;
      WordLengthExtend(s[1..], t);
    }
  }

  /** A text has no words exactly when it is all whitespace. */
  lemma {:induction false} WordsEmptyIffAllSpace(s: string)
    ensures Words(s) == [] <==> AllSpace(s)
    decreases |s|
  {
    if s != [] {
      WordsEmptyIffAllSpace(s[1..]);
      if IsSpace(s[0]) {
        assert AllSpace(s) <==> AllSpace(s[1..]);
      }
    }
  }

  /** A word followed by whitespace is one word. */
  lemma WordsOfWord(w: string, t: string)
    requires w != [] && NoSpace(w) && AllSpace(t)
    ensures Words(w + t) == [w]
  {
    var s := w + t;
    WordLengthOfWord(w);
    if t != [] {
      WordLengthStopsAtSpace(w, t);
    } else {
      assert s == w;
    }
    assert s[..|w|] == w && s[|w|..] == t;
    WordsEmptyIffAllSpace(t);
  }

  /** A word that follows whitespace (or starts the text) and is followed
      only by whitespace is the text's last word. */
  lemma {:induction false} WordsOfTrailingWord(p: string, w: string, t: string)
    requires p == [] || IsSpace(p[|p| - 1])
    requires w != [] && NoSpace(w) && AllSpace(t)
    ensures Words(p + w + t) == Words(p) + [w]
    decreases |p|
  {
    var s := p + w + t;
    if p == [] {
      assert s == w + t;
      WordsOfWord(w, t);
    } else if IsSpace(p[0]) {
      assert s[0] == p[0] && s[1..] == p[1..] + w + t;
      WordsOfTrailingWord(p[1..], w, t);
    } else {
      WordLengthBeforeSpace(p, |p| - 1);
      var n := WordLength(p);
      assert s == p + (w + t);
      WordLengthExtend(p, w + t);
      assert s[0] == p[0] && s[..n] == p[..n];
      assert s[n..] == p[n..] + w + t;
      WordsOfTrailingWord(p[n..], w, t);
      assert Words(s) == [p[..n]] + Words(p[n..] + w + t);
      assert Words(p) == [p[..n]] + Words(p[n..]);
    }
  }

  /** `s` splits as `p + w + t`: `w` is a word, `t` is trailing whitespace
      and `p` is empty or ends in whitespace. */
  predicate LastWordAt(s: string, p: string, w: string, t: string)
  {
    && s == p + w + t
    && (p == [] || IsSpace(p[|p| - 1]))
    && w != [] && NoSpace(w)
    && AllSpace(t)
  }

  /** Whitespace in front keeps a split around the last word. */
  lemma LastWordAfterSpace(c: char, s: string, p: string, w: string, t: string)
    requires IsSpace(c) && LastWordAt(s, p, w, t)
    ensures LastWordAt([c] + s, [c] + p, w, t)
  {
    assert [c] + s == [c] + p + w + t;
    assert ([c] + p)[|p|] == if p == [] then c else p[|p| - 1];
  }

  /** A word in front of whitespace keeps a split around the last word. */
  lemma LastWordAfterWord(u: string, s: string, p: string, w: string, t: string)
    requires u != [] && NoSpace(u) && s != [] && IsSpace(s[0])
    requires LastWordAt(s, p, w, t)
    ensures LastWordAt(u + s, u + p, w, t)
  {
    assert s[0] == (p + w + t)[0];
    assert !IsSpace(w[0]);
    assert p != [];
    assert (u + p)[|u + p| - 1] == p[|p| - 1];
    assert u + s == u + p + w + t;
  }

  /** A text with words splits around its last word. */
  lemma {:induction false} LastWordDecomposes(s: string) returns (p: string, t: string)
    requires Words(s) != []
    ensures LastWordAt(s, p, Words(s)[|Words(s)| - 1], t)
    decreases |s|
  {
    if IsSpace(s[0]) {
      var p', t' := LastWordDecomposes(s[1..]);
      LastWordAfterSpace(s[0], s[1..], p', Words(s[1..])[|Words(s[1..])| - 1], t');
      assert s == [s[0]] + s[1..];
      p, t := [s[0]] + p', t';
    } else {
      var n := WordLength(s);
      var rest := s[n..];
      assert Words(s) == [s[..n]] + Words(rest);
      assert s == s[..n] + rest;
      if Words(rest) == [] {
        WordsEmptyIffAllSpace(rest);
        p, t := [], rest;
        assert s == p + s[..n] + t;
      } else {
        var p', t' := LastWordDecomposes(rest);
        LastWordAfterWord(s[..n], rest, p', Words(rest)[|Words(rest)| - 1], t');
        p, t := s[..n] + p', t';
      }
    }
  }

  /** `s.split()[-1]` is `w` exactly when `s` splits around `w` as its
      last word. */
  lemma LastWordSplitsText(s: string, w: string)
    ensures LastWord(s) == Some(w) <==> exists p, t :: LastWordAt(s, p, w, t)
  {
    if LastWord(s) == Some(w) {
      var p, t := LastWordDecomposes(s);
    }
    if exists p, t :: LastWordAt(s, p, w, t) {
      var p, t :| LastWordAt(s, p, w, t);
      WordsOfTrailingWord(p, w, t);
    }
  }

  // ---------------------------------------------------------------------------
  // str.upper()
  // ---------------------------------------------------------------------------

  predicate IsAsciiLower(c: char)
  {
    'a' <= c <= 'z'
  }

  predicate IsAsciiUpper(c: char)
  {
    'A' <= c <= 'Z'
  }

  /** Upper case of one character wherever Python's result is pure ASCII:
      the letters a to z, dotless i, long s, sharp s and the Latin
      ligatures U+FB00 to U+FB06. Every other character is kept. */
  function UpperChar(c: char): (u: string)
  {
    if IsAsciiLower(c) then [(c as int - 'a' as int + 'A' as int) as char]
    else if c == '\U{DF}' then "SS"
    else if c == '\U{131}' then "I"
    else if c == '\U{17F}' then "S"
    else if c == '\U{FB00}' then "FF"
    else if c == '\U{FB01}' then "FI"
    else if c == '\U{FB02}' then "FL"
    else if c == '\U{FB03}' then "FFI"
    else if c == '\U{FB04}' then "FFL"
    else if c == '\U{FB05}' || c == '\U{FB06}' then "ST"
    else [c]
  }

  /** `s.upper()`. */
  function Upper(s: string): (r: string)
    ensures forall i :: 0 <= i < |r| ==> !IsAsciiLower(r[i])
    ensures |r| >= |s|
  {
    if s == [] then []
    else
      var head, tail := UpperChar(s[0]), Upper(s[1..]);
      assert forall i :: 0 <= i < |tail| ==> (head + tail)[|head| + i] == tail[i];
      head + tail
  }

  lemma {:induction false} UpperAppend(a: string, b: string)
    ensures Upper(a + b) == Upper(a) + Upper(b)
    decreases |a|
  {
    if a != [] {
      assert (a + b)[0] == a[0];
      assert (a + b)[1..] == a[1..] + b;
      UpperAppend(a[1..], b);
      assert Upper(a + b) == UpperChar(a[0]) + Upper(a[1..] + b);
      assert Upper(a) == UpperChar(a[0]) + Upper(a[1..]);
      assert UpperChar(a[0]) + (Upper(a[1..]) + Upper(b)) == (UpperChar(a[0]) + Upper(a[1..])) + Upper(b);
    } else {
      assert a + b == b;
    }
  }

  /** Upper-casing twice is upper-casing once. */
  lemma {:induction false} UpperIdempotent(s: string)
    ensures Upper(Upper(s)) == Upper(s)
    decreases |s|
  {
    if s != [] {
      var head := UpperChar(s[0]);
      UpperAppend(head, Upper(s[1..]));
      UpperIdempotent(s[1..]);
      UpperCharFixed(s[0]);
    }
  }

  /** The upper case of a character is left alone by a second upper-casing. */
  lemma UpperCharFixed(c: char)
    ensures Upper(UpperChar(c)) == UpperChar(c)
  {
    var u := UpperChar(c);
    if |u| == 1 {
      assert u == [u[0]];
      assert UpperChar(u[0]) == u;
      assert Upper(u) == UpperChar(u[0]) + Upper([]);
    } else {
      UpperOfUppercaseAscii(u);
    }
  }

  predicate IsAscii(c: char)
  {
    c <= '\U{7F}'
  }

  /** On ASCII text `upper` changes letter case only: the result is as long
      as the input and equal to it once both are lower-cased. */
  lemma {:induction false} UpperOfAscii(s: string)
    requires forall i :: 0 <= i < |s| ==> IsAscii(s[i])
    ensures |Upper(s)| == |s|
    ensures LowerAscii(Upper(s)) == LowerAscii(s)
    decreases |s|
  {
    if s != [] {
      UpperOfAscii(s[1..]);
      var u, tail := Upper(s), Upper(s[1..]);
      assert |UpperChar(s[0])| == 1;
      assert u == UpperChar(s[0]) + tail;
      forall i | 0 <= i < |s|
        ensures LowerAscii(u)[i] == LowerAscii(s)[i]
      {
        if i > 0 {
          assert u[i] == tail[i - 1] && s[i] == s[1..][i - 1];
          assert LowerAscii(tail)[i - 1] == LowerAscii(s[1..])[i - 1];
        }
      }
    }
  }

  /** Upper-casing leaves a string of upper-case ASCII letters unchanged. */
  lemma {:induction false} UpperOfUppercaseAscii(s: string)
    requires forall i :: 0 <= i < |s| ==> IsAsciiUpper(s[i])
    ensures Upper(s) == s
    decreases |s|
  {
    if s != [] {
      UpperOfUppercaseAscii(s[1..]);
      assert UpperChar(s[0]) == [s[0]];
    }
  }

  /** No upper-cased string has a lower-case ASCII letter at index `i`; in
      particular it never equals a mixed-case name such as "WebP". */
  lemma UpperNeverMixedCase(s: string, name: string, i: nat)
    requires i < |name| && IsAsciiLower(name[i])
    ensures Upper(s) != name
  {
  }

  /** `s.lower()` for ASCII strings (used for file extensions). */
  function LowerAscii(s: string): (r: string)
    ensures |r| == |s|
    ensures forall i :: 0 <= i < |s| ==> !IsAsciiUpper(r[i])
  {
    seq(|s|, i requires 0 <= i < |s| =>
      if IsAsciiUpper(s[i]) then (s[i] as int - 'A' as int + 'a' as int) as char else s[i])
  }
}
