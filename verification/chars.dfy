/** Character-level helpers shared by the parser and the statistics:
    Python's notion of whitespace, `str.strip`, `str.split()` with no
    argument, and the ASCII part of `str.upper` / `str.lower`. */
module Chars {

  /** `str.isspace` (and `\s` in a `re` pattern) restricted to ASCII:
      space, tab, line feed, vertical tab, form feed, carriage return and
      the four separators U+001C..U+001F. */
  predicate IsSpace(c: char) {
    c == ' ' || c == '\t' || c == '\n' || c == '\r' || c == '\U{B}' || c == '\U{C}'
    || ('\U{1C}' <= c <= '\U{1F}')
  }

  /** `\d` restricted to ASCII. */
  predicate IsDigit(c: char) {
    '0' <= c <= '9'
  }

  function DigitValue(c: char): (v: nat)
    requires IsDigit(c)
    ensures v <= 9
  {
    c as int - '0' as int
  }

  predicate NoSpace(s: string) {
    forall i :: 0 <= i < |s| ==> !IsSpace(s[i])
  }

  /** Neither end of `s` is whitespace. */
  predicate Trimmed(s: string) {
    s == [] || (!IsSpace(s[0]) && !IsSpace(s[|s| - 1]))
  }

  /** Every character of `s[i..j]` is whitespace. */
  predicate SpaceBetween(s: string, i: nat, j: nat)
    requires i <= j <= |s|
  {
    forall k :: i <= k < j ==> IsSpace(s[k])
  }

  /** The end of the run of whitespace that starts at `i`. */
  function SkipSpace(s: string, i: nat): (j: nat)
    requires i <= |s|
    ensures i <= j <= |s| && SpaceBetween(s, i, j)
    ensures j == |s| || !IsSpace(s[j])
    decreases |s| - i
  {
    if i < |s| && IsSpace(s[i]) then SkipSpace(s, i + 1) else i
  }

  /** The start of the run of whitespace that ends at `j`, going no
      further left than `lo`. */
  function SkipSpaceBack(s: string, lo: nat, j: nat): (i: nat)
    requires lo <= j <= |s|
    ensures lo <= i <= j && SpaceBetween(s, i, j)
    ensures i == lo || !IsSpace(s[i - 1])
    decreases j
  {
    if lo < j && IsSpace(s[j - 1]) then SkipSpaceBack(s, lo, j - 1) else j
  }

  /** `str.strip()`: `s` is some whitespace, then `r`, then some whitespace,
      and `r` neither starts nor ends with whitespace. */
  function Strip(s: string): (r: string)
    ensures Trimmed(r)
    ensures exists i :: 0 <= i <= |s| - |r| && r == s[i..i + |r|]
                        && SpaceBetween(s, 0, i) && SpaceBetween(s, i + |r|, |s|)
  {
    var a := SkipSpace(s, 0);
    var b := SkipSpaceBack(s, a, |s|);
    assert a < b ==> !IsSpace(s[b - 1]);
    s[a..b]
  }

  /** Stripping leaves nothing exactly when the line is blank. */
  lemma StripEmpty(s: string)
    ensures Strip(s) == [] <==> SpaceBetween(s, 0, |s|)
  {
    var r := Strip(s);
    var i :| 0 <= i <= |s| - |r| && r == s[i..i + |r|]
             && SpaceBetween(s, 0, i) && SpaceBetween(s, i + |r|, |s|);
    if r != [] {
      assert s[i] == r[0];
    }
  }

  /** A string without surrounding whitespace is left alone. */
  lemma StripTrimmed(s: string)
    requires Trimmed(s)
    ensures Strip(s) == s
  {
    assert SkipSpace(s, 0) == 0;
    if s != [] {
      assert SkipSpaceBack(s, 0, |s|) == |s|;
    }
  }

  /** Length of the run of non-whitespace characters at the start of `s`. */
  function WordLength(s: string): (n: nat)
    ensures n <= |s| && NoSpace(s[..n])
    ensures n == |s| || IsSpace(s[n])
  {
    if |s| == 0 || IsSpace(s[0]) then 0 else 1 + WordLength(s[1..])
  }

  /** `str.split()` with no separator: maximal runs of non-whitespace, with
      no empty strings. */
  function Words(s: string): seq<string>
    decreases |s|
  {
    if |s| == 0 then []
    else if IsSpace(s[0]) then Words(s[1..])
    else
      var n := WordLength(s);
      [s[..n]] + Words(s[n..])
  }

  /** Every word is non-empty and free of whitespace. */
  lemma {:induction false} WordsShape(s: string)
    ensures forall k :: 0 <= k < |Words(s)| ==> Words(s)[k] != [] && NoSpace(Words(s)[k])
    decreases |s|
  {
    if |s| > 0 {
      if IsSpace(s[0]) {
        WordsShape(s[1..]);
      } else {
        var n := WordLength(s);
        var rest := Words(s[n..]);
        WordsShape(s[n..]);
        assert Words(s) == [s[..n]] + rest;
        forall k | 0 <= k < |Words(s)|
          ensures Words(s)[k] != [] && NoSpace(Words(s)[k])
        {
          if k > 0 {
            assert Words(s)[k] == rest[k - 1];
          }
        }
      }
    }
  }

  /** The words separated by single spaces. */
  function JoinSpace(ws: seq<string>): string {
    if |ws| == 0 then []
    else if |ws| == 1 then ws[0]
    else ws[0] + " " + JoinSpace(ws[1..])
  }

  lemma WordLengthOfWord(w: string, rest: string)
    requires NoSpace(w) && (rest == [] || IsSpace(rest[0]))
    ensures WordLength(w + rest) == |w|
    decreases |w|
  {
    if |w| > 0 {
      assert (w + rest)[1..] == w[1..] + rest;
      WordLengthOfWord(w[1..], rest);
    } else {
      assert w + rest == rest;
    }
  }

  /** A leading word is split off and the rest is split on its own. */
  lemma WordsCons(w: string, rest: string)
    requires w != [] && NoSpace(w) && (rest == [] || IsSpace(rest[0]))
    ensures Words(w + rest) == [w] + Words(rest)
  {
    var t := w + rest;
    WordLengthOfWord(w, rest);
    assert t[..|w|] == w;
    assert t[|w|..] == rest;
  }

  lemma WordsAfterSpace(x: string)
    ensures Words(" " + x) == Words(x)
  {
    assert (" " + x)[1..] == x;
  }

  lemma WordsConsSpace(w: string, tail: string)
    requires w != [] && NoSpace(w)
    ensures Words(w + " " + tail) == [w] + Words(tail)
  {
    var rest := " " + tail;
    assert w + " " + tail == w + rest;
    assert rest[0] == ' ';
    WordsCons(w, rest);
    WordsAfterSpace(tail);
  }

  /** `split` undoes joining non-empty, whitespace-free words with spaces. */
  lemma {:induction false} WordsJoinSpace(ws: seq<string>)
    requires forall k :: 0 <= k < |ws| ==> ws[k] != [] && NoSpace(ws[k])
    ensures Words(JoinSpace(ws)) == ws
  {
    if |ws| == 1 {
      WordsCons(ws[0], []);
      assert ws[0] + [] == ws[0];
    } else if |ws| > 1 {
      var tail := ws[1..];
      assert ws == [ws[0]] + tail;
      assert forall k :: 0 <= k < |tail| ==> tail[k] != [] && NoSpace(tail[k]) by {
        forall k | 0 <= k < |tail| ensures tail[k] != [] && NoSpace(tail[k]) {
          assert tail[k] == ws[k + 1];
        }
      }
      var j := JoinSpace(tail);
      calc {
        Words(JoinSpace(ws));
        { assert JoinSpace(ws) == ws[0] + " " + j; }
        Words(ws[0] + " " + j);
        { WordsConsSpace(ws[0], j); }
        [ws[0]] + Words(j);
        { WordsJoinSpace(tail); }
        [ws[0]] + tail;
      }
    }
  }

  /** Any whitespace character cuts the text in two, and the words of the
      whole are those of each side: runs of whitespace of any kind and
      length, at either end or between words, yield no words of their
      own. */
  lemma {:induction false} WordsSplitAt(a: string, c: char, b: string)
    requires IsSpace(c)
    ensures Words(a + [c] + b) == Words(a) + Words(b)
    decreases |a|
  {
    var t := a + [c] + b;
    if |a| == 0 {
      assert t == [c] + b && t[1..] == b;
    } else if IsSpace(a[0]) {
      assert t[1..] == a[1..] + [c] + b;
      WordsSplitAt(a[1..], c, b);
    } else {
      var n := WordLength(a);
      var w, tail := a[..n], a[n..] + [c] + b;
      assert a == w + a[n..] && t == w + tail;
      WordLengthOfWord(w, tail);
      assert t[..n] == w && t[n..] == tail;
      WordsSplitAt(a[n..], c, b);
    }
  }

  /** ASCII part of `str.lower`. */
  function LowerChar(c: char): char {
    if 'A' <= c <= 'Z' then (c as int + 32) as char else c
  }

  /** ASCII part of `str.upper`. */
  function UpperChar(c: char): char {
    if 'a' <= c <= 'z' then (c as int - 32) as char else c
  }

  function Lower(s: string): (r: string)
    ensures |r| == |s|
    ensures forall i :: 0 <= i < |s| ==> r[i] == LowerChar(s[i])
  {
    seq(|s|, i requires 0 <= i < |s| => LowerChar(s[i]))
  }

  function Upper(s: string): (r: string)
    ensures |r| == |s|
    ensures forall i :: 0 <= i < |s| ==> r[i] == UpperChar(s[i])
  {
    seq(|s|, i requires 0 <= i < |s| => UpperChar(s[i]))
  }

  /** `s.replace('.', '')`. */
  function RemoveDots(s: string): (r: string)
    ensures '.' !in r
    ensures |r| <= |s|
  {
    if |s| == 0 then []
    else (if s[0] == '.' then [] else [s[0]]) + RemoveDots(s[1..])
  }

  /** Dropping the dots works character by character, so it splits over a
      concatenation. */
  lemma {:induction false} RemoveDotsAppend(a: string, b: string)
    ensures RemoveDots(a + b) == RemoveDots(a) + RemoveDots(b)
  {
    if |a| == 0 {
      assert a + b == b;
    } else {
      var head := if a[0] == '.' then [] else [a[0]];
      assert (a + b)[0] == a[0] && (a + b)[1..] == a[1..] + b;
      RemoveDotsAppend(a[1..], b);
      assert head + (RemoveDots(a[1..]) + RemoveDots(b)) == (head + RemoveDots(a[1..])) + RemoveDots(b);
    }
  }
}
