/** `leer_log_whatsapp` (src/whatsapp_loader.py, lines 5-49) over the lines
    of an exported chat, and the way `readlines` cuts the file into lines. */
module Loader {
  import opened Chars
  import opened Optional
  import opened Calendar
  import opened LinePattern
  import opened Strptime
  import opened Messages
  import opened Positions

  /** Lines whose author group is longer than this are dropped. */
  const MaxAuthor := 50

  /** One line of the file: stripped, matched, and converted. A blank line,
      a line the pattern rejects, an author over `MaxAuthor` characters and a
      date or time no format accepts all give `None`. */
  function ParseLine(raw: string): (r: Option<Message>)
    ensures r.Some? ==> |r.value.author| <= MaxAuthor
  {
    var line := Strip(raw);
    if line == [] then None
    else
      match MatchLine(line)
      case None => None
      case Some(g) =>
        var date := ParseDate(g.date);
        var time := ParseTime(g.time);
        if |g.author| > MaxAuthor then None
        else if date.Some? && time.Some? then Some(Message(date.value, time.value, g.author, g.text))
        else None
  }

  /** The per-line loop: every line that parses gives one message, in file
      order. */
  function LoadLines(lines: seq<string>): (ms: seq<Message>)
    ensures |ms| <= |lines|
    ensures forall k :: 0 <= k < |ms| ==> |ms[k].author| <= MaxAuthor
  {
    if |lines| == 0 then []
    else
      var rest := LoadLines(lines[..|lines| - 1]);
      match ParseLine(lines[|lines| - 1])
      case None => rest
      case Some(m) => rest + [m]
  }

  /** The loop runs line by line: loading two blocks of lines one after the
      other gives the messages of the first block, then those of the
      second. */
  lemma {:induction false} LoadAppend(a: seq<string>, b: seq<string>)
    ensures LoadLines(a + b) == LoadLines(a) + LoadLines(b)
    decreases |b|
  {
    if |b| == 0 {
      assert a + b == a;
    } else {
      var b' := b[..|b| - 1];
      assert (a + b)[..|a + b| - 1] == a + b';
      assert (a + b)[|a + b| - 1] == b[|b| - 1];
      LoadAppend(a, b');
    }
  }

  /** Which lines parse. */
  function Parses(lines: seq<string>): (ok: seq<bool>)
    ensures |ok| == |lines|
    ensures forall i :: 0 <= i < |lines| ==> (ok[i] <==> ParseLine(lines[i]).Some?)
  {
    seq(|lines|, i requires 0 <= i < |lines| => ParseLine(lines[i]).Some?)
  }

  /** The positions of the lines that parse, in file order. */
  function Accepted(lines: seq<string>): (idx: seq<nat>)
    ensures forall k :: 0 <= k < |idx| ==> idx[k] < |lines| && ParseLine(lines[idx[k]]).Some?
    ensures forall k, l :: 0 <= k < l < |idx| ==> idx[k] < idx[l]
    ensures forall i :: 0 <= i < |lines| && ParseLine(lines[i]).Some? ==> i in idx
  {
    Trues(Parses(lines))
  }

  /** Each accepted line yields exactly one message, in the order of the
      lines, and no other line yields anything. */
  lemma {:induction false} LoadLinesAccepted(lines: seq<string>)
    ensures |LoadLines(lines)| == |Accepted(lines)|
    ensures forall k :: 0 <= k < |Accepted(lines)| ==>
              Some(LoadLines(lines)[k]) == ParseLine(lines[Accepted(lines)[k]])
  {
    if |lines| > 0 {
      var n := |lines|;
      var init := lines[..n - 1];
      LoadLinesAccepted(init);
      var ok := Parses(lines);
      assert Parses(init) == ok[..n - 1];
      var idx0 := Accepted(init);
      var out0 := LoadLines(init);
      var idx := Accepted(lines);
      var out := LoadLines(lines);
      assert idx == idx0 + (if ok[n - 1] then [n - 1] else []);
      assert out == out0 + (match ParseLine(lines[n - 1]) case None => [] case Some(m) => [m]);
      forall k | 0 <= k < |idx|
        ensures Some(out[k]) == ParseLine(lines[idx[k]])
      {
        if k < |idx0| {
          assert idx[k] == idx0[k] && out[k] == out0[k];
          assert lines[idx0[k]] == init[idx0[k]];
        }
      }
    }
  }

  /** Blank and whitespace-only lines never give a message. */
  lemma BlankLine(raw: string)
    requires SpaceBetween(raw, 0, |raw|)
    ensures ParseLine(raw) == None
  {
    StripEmpty(raw);
  }

  // ---------------------------------------------------------------------
  // `readlines`

  /** A line as `readlines` delivers it: a line feed can only be its last
      character. */
  predicate OneLine(l: string) {
    forall j :: 0 <= j < |l| - 1 ==> l[j] != '\n'
  }

  /** The length of the first line of `text`, its line feed included. */
  function FirstLineLength(text: string): (n: nat)
    requires |text| > 0
    ensures 0 < n <= |text| && OneLine(text[..n])
    ensures n == |text| || text[n - 1] == '\n'
  {
    if text[0] == '\n' || |text| == 1 then 1
    else
      var n := 1 + FirstLineLength(text[1..]);
      assert forall j :: 1 <= j < n ==> text[..n][j] == text[1..][..n - 1][j - 1];
      n
  }

  /** `f.readlines()`: the text cut after every line feed. */
  function ReadLines(text: string): (ls: seq<string>)
    ensures forall k :: 0 <= k < |ls| ==> ls[k] != [] && OneLine(ls[k])
    decreases |text|
  {
    if |text| == 0 then []
    else
      var n := FirstLineLength(text);
      [text[..n]] + ReadLines(text[n..])
  }

  function Concat(ls: seq<string>): string {
    if |ls| == 0 then [] else ls[0] + Concat(ls[1..])
  }

  /** Cutting the text into lines loses nothing and adds nothing. */
  lemma {:induction false} ConcatReadLines(text: string)
    ensures Concat(ReadLines(text)) == text
    decreases |text|
  {
    if |text| > 0 {
      var n := FirstLineLength(text);
      ConcatReadLines(text[n..]);
      assert ReadLines(text)[1..] == ReadLines(text[n..]);
      assert text[..n] + text[n..] == text;
    }
  }

  /** Stripping a line of the file removes its line feed, so what is left
      holds none. */
  lemma StripOneLine(l: string)
    requires OneLine(l)
    ensures NoNewline(Strip(l))
  {
    var r := Strip(l);
    var i :| 0 <= i <= |l| - |r| && r == l[i..i + |r|]
             && SpaceBetween(l, 0, i) && SpaceBetween(l, i + |r|, |l|);
    forall j | 0 <= j < |r|
      ensures r[j] != '\n'
    {
      assert r[j] == l[i + j];
      if i + j == |l| - 1 {
        assert j == |r| - 1;
      }
    }
  }

  /** `leer_log_whatsapp` on the text of a file. */
  function LoadText(text: string): (ms: seq<Message>)
    ensures forall k :: 0 <= k < |ms| ==> |ms[k].author| <= MaxAuthor
  {
    LoadLines(ReadLines(text))
  }

  // ---------------------------------------------------------------------
  // Which lines become messages.

  /** A line of the file becomes a message exactly when it is not blank,
      the scanner reads its four groups, the author is short enough, and
      both the date and the time parse; the message is then built from
      those groups and nothing else. */
  lemma ParseLineAccepts(raw: string)
    requires OneLine(raw)
    ensures var line := Strip(raw);
            ParseLine(raw).Some? <==>
              (line != [] && ScanLine(line).Some? && |ScanLine(line).value.author| <= MaxAuthor
               && ParseDate(ScanLine(line).value.date).Some? && ParseTime(ScanLine(line).value.time).Some?)
    ensures var line := Strip(raw);
            ParseLine(raw).Some? ==>
              var g := ScanLine(line).value;
              ParseLine(raw).value == Message(ParseDate(g.date).value, ParseTime(g.time).value, g.author, g.text)
  {
    StripOneLine(raw);
    MatchLineScan(Strip(raw));
  }

  /** The author starts where the decoration after the time group ends and
      runs up to the next colon followed by whitespace (it never holds one);
      the text is everything after that colon and one whitespace
      character. */
  lemma ParseLineAuthor(raw: string, m: Message)
    requires OneLine(raw) && ParseLine(raw) == Some(m)
    ensures var s := Strip(raw);
            TimeGroupEnd(s).Some? && var t := TimeGroupEnd(s).value;
            AuthorStart(s, t).Some? && var a := AuthorStart(s, t).value;
            Decoration(s[t..a]) && AuthorThenText(s, a, m.author, m.text)
  {
    ParseLineAccepts(raw);
    ScanLineAuthor(Strip(raw));
  }
}
