/**
 * The prompt wrap of the enhanced placeholder in real_sd_server.py: the
 * prompt split into words as Python's str.split() does, the greedy wrap of
 * those words into lines (a line of two or more words has at most 34
 * characters; a longer word gets a line of its own).
 */
module WordWrap {

  // ---------------------------------------------------------------- words

  /** The characters Python's str.split() (no separator) treats as whitespace. */
  predicate IsSpace(c: char)
    ensures c as int < 0x80 ==>
      (IsSpace(c) <==> c in {' ', '\t', '\n', '\r', '\U{000B}', '\U{000C}', '\U{001C}', '\U{001D}', '\U{001E}', '\U{001F}'})
  {
    var n := c as int;
    || 0x09 <= n <= 0x0D
    || 0x1C <= n <= 0x20
    || n == 0x85 || n == 0xA0 || n == 0x1680
    || 0x2000 <= n <= 0x200A
    || n == 0x2028 || n == 0x2029 || n == 0x202F || n == 0x205F || n == 0x3000
  }

  /** A word: a nonempty run of non-whitespace characters. */
  predicate IsWord(w: string) {
    w != [] && forall k :: 0 <= k < |w| ==> !IsSpace(w[k])
  }

  /** The length of the run of non-whitespace characters that starts s. */
  function WordLen(s: string): (n: nat)
    ensures n <= |s|
    ensures forall k :: 0 <= k < n ==> !IsSpace(s[k])
    ensures n == |s| || IsSpace(s[n])
  {
    if s == [] || IsSpace(s[0]) then 0 else 1 + WordLen(s[1..])
  }

  /** str.split(): the maximal whitespace-free runs of s, in order. */
  function Words(s: string): (ws: seq<string>)
    ensures forall i :: 0 <= i < |ws| ==> IsWord(ws[i])
    decreases |s|
  {
    if s == [] then []
    else if IsSpace(s[0]) then Words(s[1..])
    else
      var n := WordLen(s);
      [s[..n]] + Words(s[n..])
  }

  /** " ".join(ws) */
  function Join(ws: seq<string>): string
  {
    if ws == [] then ""
    else if |ws| == 1 then ws[0]
    else Join(ws[..|ws| - 1]) + " " + ws[|ws| - 1]
  }

  /** A word followed by whitespace or by nothing is read whole. */
  lemma {:induction false} WordLenOfWord(w: string, r: string)
    requires forall k :: 0 <= k < |w| ==> !IsSpace(w[k])
    requires r == [] || IsSpace(r[0])
    ensures WordLen(w + r) == |w|
    decreases |w|
  {
    if w != [] {
      assert (w + r)[1..] == w[1..] + r;
      WordLenOfWord(w[1..], r);
    }
  }

  /** A leading word is the first element of the split. */
  lemma WordsCons(w: string, r: string)
    requires IsWord(w)
    requires r == [] || IsSpace(r[0])
    ensures Words(w + r) == [w] + Words(r)
  {
    WordLenOfWord(w, r);
    assert (w + r)[..|w|] == w;
    assert (w + r)[|w|..] == r;
  }

  /** Splitting at a whitespace character splits the word list there too. */
  lemma {:induction false} WordsAroundSpace(a: string, c: char, b: string)
    requires IsSpace(c)
    ensures Words(a + [c] + b) == Words(a) + Words(b)
    decreases |a|
  {
    var s := a + [c] + b;
    if a == [] {
      assert s[1..] == b;
    } else if IsSpace(a[0]) {
      assert s[1..] == a[1..] + [c] + b;
      WordsAroundSpace(a[1..], c, b);
    } else {
      var w, rest := a[..WordLen(a)], a[WordLen(a)..];
      assert Words(a) == [w] + Words(rest) by {
        assert a == w + rest;
        WordsCons(w, rest);
      }
      assert Words(s) == [w] + Words(rest + [c] + b) by {
        assert s == w + (rest + [c] + b);
        WordsCons(w, rest + [c] + b);
      }
      WordsAroundSpace(rest, c, b);
    }
  }

  /** A single word splits to itself. */
  lemma WordsOfWord(w: string)
    requires IsWord(w)
    ensures Words(w) == [w]
  {
    assert WordLen(w) == |w|;
    assert w[..|w|] == w;
    assert w[|w|..] == [];
  }

  /** Round trip: splitting words joined by single spaces gives back the words. */
  lemma {:induction false} WordsOfJoin(ws: seq<string>)
    requires forall i :: 0 <= i < |ws| ==> IsWord(ws[i])
    ensures Words(Join(ws)) == ws
    decreases |ws|
  {
    if |ws| == 1 {
      WordsOfWord(ws[0]);
    } else if |ws| > 1 {
      var init, last := ws[..|ws| - 1], ws[|ws| - 1];
      WordsOfJoin(init);
      WordsAroundSpace(Join(init), ' ', last);
      WordsOfWord(last);
      assert Join(ws) == Join(init) + [' '] + last;
      assert init + [last] == ws;
    }
  }

  /** A prompt has no words exactly when it is empty or all whitespace. */
  lemma {:induction false} NoWordsIffBlank(s: string)
    ensures Words(s) == [] <==> forall k :: 0 <= k < |s| ==> IsSpace(s[k])
    decreases |s|
  {
    if s != [] && IsSpace(s[0]) {
      NoWordsIffBlank(s[1..]);
      forall k | 0 <= k < |s| && forall j :: 0 <= j < |s[1..]| ==> IsSpace(s[1..][j])
        ensures IsSpace(s[k])
      {
        if k > 0 { assert s[k] == s[1..][k - 1]; }
      }
    }
  }

  // ---------------------------------------------------------------- wrap

  /** The wrap test `len(current_line + " " + word) < 35`. */
  const LineLimit: nat := 35

  /** The loop state of the wrap: the finished lines and current_line. */
  datatype WrapState = WrapState(lines: seq<string>, current: string)

  const Start := WrapState([], "")

  /** One iteration of the wrap loop, for one word. */
  function Place(st: WrapState, w: string): (r: WrapState)
    ensures |st.lines| <= |r.lines| <= |st.lines| + 1 && r.lines[..|st.lines|] == st.lines
    ensures |r.lines| == |st.lines| + 1 <==> |st.current + " " + w| >= LineLimit
    ensures |r.current| >= |w| && r.current[|r.current| - |w|..] == w
    ensures |r.current| < LineLimit || r.current == w
  {
    if |st.current + " " + w| < LineLimit then
      WrapState(st.lines, if st.current != "" then st.current + " " + w else w)
    else
      WrapState(st.lines + [st.current], w)
  }

  /** The loop state after the words ws, taken in order. */
  function PlaceAll(ws: seq<string>): (r: WrapState)
    ensures |r.lines| <= |ws|
    ensures |r.current| < LineLimit || (ws != [] && r.current == ws[|ws| - 1])
  {
    if ws == [] then Start else Place(PlaceAll(ws[..|ws| - 1]), ws[|ws| - 1])
  }

  /** The lines of the wrap: the finished lines, then current_line if nonempty. */
  function Wrap(ws: seq<string>): (lines: seq<string>)
    ensures |lines| <= |ws| + 1
    ensures ws == [] ==> lines == []
  {
    var st := PlaceAll(ws);
    if st.current != "" then st.lines + [st.current] else st.lines
  }

  /** The words of each line, concatenated. */
  function Flatten(lines: seq<string>): seq<string>
  {
    if lines == [] then [] else Flatten(lines[..|lines| - 1]) + Words(lines[|lines| - 1])
  }

  lemma FlattenSnoc(lines: seq<string>, line: string)
    ensures Flatten(lines + [line]) == Flatten(lines) + Words(line)
  {
    assert (lines + [line])[..|lines|] == lines;
  }

  /** A line is its words joined by single spaces, and it holds two or more words only within 34 characters. */
  predicate WellFormed(line: string) {
    && line == Join(Words(line))
    && (|Words(line)| >= 2 ==> |line| < LineLimit)
  }

  /** What the wrap loop keeps true of its state after the words ws. */
  predicate Inv(st: WrapState, ws: seq<string>) {
    && Flatten(st.lines) + Words(st.current) == ws
    && (forall i :: 0 <= i < |st.lines| ==> WellFormed(st.lines[i]))
    && WellFormed(st.current)
    && (forall i :: 1 <= i < |st.lines| ==> st.lines[i] != "")
    && (st.lines != [] ==> st.current != "")
    && (st.current != "" <==> ws != [])
    && ((st.lines != [] && st.lines[0] == "") <==> (ws != [] && |ws[0]| >= LineLimit - 1))
  }

  /** Appending a word to a nonempty line that stays under the limit keeps it well formed. */
  lemma ExtendLine(c: string, w: string)
    requires WellFormed(c) && c != "" && IsWord(w)
    requires |c + " " + w| < LineLimit
    ensures Words(c + " " + w) == Words(c) + [w]
    ensures WellFormed(c + " " + w)
  {
    WordsAroundSpace(c, ' ', w);
    WordsOfWord(w);
    var ws := Words(c) + [w];
    assert c + " " + w == c + [' '] + w;
    assert Words(c) != [];
    assert ws[..|ws| - 1] == Words(c);
  }

  lemma LoneWord(w: string)
    requires IsWord(w)
    ensures Words(w) == [w] && WellFormed(w)
  {
    WordsOfWord(w);
  }

  lemma PlaceKeepsInv(st: WrapState, ws: seq<string>, w: string)
    requires Inv(st, ws) && IsWord(w)
    ensures Inv(Place(st, w), ws + [w])
  {
    if |st.current + " " + w| >= LineLimit {
      BreakKeepsInv(st, ws, w);
    } else if st.current != "" {
      ExtendKeepsInv(st, ws, w);
    } else {
      LoneWord(w);
    }
  }

  /** The word joins current_line. */
  lemma ExtendKeepsInv(st: WrapState, ws: seq<string>, w: string)
    requires Inv(st, ws) && IsWord(w)
    requires st.current != "" && |st.current + " " + w| < LineLimit
    ensures Inv(WrapState(st.lines, st.current + " " + w), ws + [w])
  {
    ExtendLine(st.current, w);
  }

  /** current_line is finished and the word starts the next one. */
  lemma BreakKeepsInv(st: WrapState, ws: seq<string>, w: string)
    requires Inv(st, ws) && IsWord(w)
    requires |st.current + " " + w| >= LineLimit
    ensures Inv(WrapState(st.lines + [st.current], w), ws + [w])
  {
    LoneWord(w);
    FlattenSnoc(st.lines, st.current);
  }

  lemma {:induction false} PlaceAllInv(ws: seq<string>)
    requires forall i :: 0 <= i < |ws| ==> IsWord(ws[i])
    ensures Inv(PlaceAll(ws), ws)
    decreases |ws|
  {
    if ws == [] {
      assert Words("") == [];
    } else {
      var init, last := ws[..|ws| - 1], ws[|ws| - 1];
      assert init + [last] == ws;
      assert PlaceAll(ws) == Place(PlaceAll(init), last);
      PlaceAllInv(init);
      PlaceKeepsInv(PlaceAll(init), init, last);
    }
  }

  /** `line` could not take the first word of `next`: joining them would reach the limit. */
  predicate Full(line: string, next: string) {
    Words(next) != [] && |line + " " + Words(next)[0]| >= LineLimit
  }

  /** Greediness: every finished line is full with respect to the line after it. */
  predicate Greedy(st: WrapState) {
    && (forall i :: 0 <= i < |st.lines| - 1 ==> Full(st.lines[i], st.lines[i + 1]))
    && (st.lines != [] ==> Full(st.lines[|st.lines| - 1], st.current))
  }

  /** One iteration keeps the wrap greedy: a line is finished only when the next word does not fit. */
  lemma PlaceKeepsGreedy(st: WrapState, ws: seq<string>, w: string)
    requires Inv(st, ws) && Greedy(st) && IsWord(w)
    ensures Greedy(Place(st, w))
  {
    LoneWord(w);
    if |st.current + " " + w| >= LineLimit {
      var lines := st.lines + [st.current];
      forall i | 0 <= i < |lines| - 1
        ensures Full(lines[i], lines[i + 1])
      {
        if i < |st.lines| - 1 {
          assert lines[i] == st.lines[i] && lines[i + 1] == st.lines[i + 1];
        } else {
          assert lines[i] == st.lines[|st.lines| - 1] && lines[i + 1] == st.current;
        }
      }
      assert Full(lines[|lines| - 1], w);
    } else if st.current != "" {
      ExtendLine(st.current, w);
      assert Words(st.current + " " + w)[0] == Words(st.current)[0];
    }
  }

  lemma {:induction false} PlaceAllGreedy(ws: seq<string>)
    requires forall i :: 0 <= i < |ws| ==> IsWord(ws[i])
    ensures Greedy(PlaceAll(ws))
    decreases |ws|
  {
    if ws != [] {
      var init, last := ws[..|ws| - 1], ws[|ws| - 1];
      assert PlaceAll(ws) == Place(PlaceAll(init), last);
      PlaceAllGreedy(init);
      PlaceAllInv(init);
      PlaceKeepsGreedy(PlaceAll(init), init, last);
    }
  }

  /** Finishing the current line keeps every line full with respect to the next. */
  lemma FinishGreedy(st: WrapState, lines: seq<string>)
    requires Greedy(st)
    requires lines == if st.current != "" then st.lines + [st.current] else st.lines
    ensures forall i :: 1 <= i < |lines| ==> Full(lines[i - 1], lines[i])
  {
    forall i | 1 <= i < |lines|
      ensures Full(lines[i - 1], lines[i])
    {
      if i < |st.lines| {
        assert lines[i - 1] == st.lines[i - 1] && lines[i] == st.lines[(i - 1) + 1];
      } else {
        assert lines[i - 1] == st.lines[|st.lines| - 1] && lines[i] == st.current;
      }
    }
  }

  /**
   * The wrap is greedy: each line is followed by a line whose first word
   * would have taken it to 35 characters or more.
   */
  lemma WrapIsGreedy(ws: seq<string>)
    requires forall i :: 0 <= i < |ws| ==> IsWord(ws[i])
    ensures forall i :: 1 <= i < |Wrap(ws)| ==>
      Words(Wrap(ws)[i]) != [] && |Wrap(ws)[i - 1] + " " + Words(Wrap(ws)[i])[0]| >= LineLimit
  {
    var lines := Wrap(ws);
    PlaceAllGreedy(ws);
    FinishGreedy(PlaceAll(ws), lines);
    forall i | 1 <= i < |lines|
      ensures Words(lines[i]) != [] && |lines[i - 1] + " " + Words(lines[i])[0]| >= LineLimit
    {
      assert Full(lines[i - 1], lines[i]);
    }
  }

  /**
   * The wrap of the words ws:
   * - reading the lines' words back gives ws, in order;
   * - every line is its words joined by single spaces;
   * - a line with two or more words is at most 34 characters long;
   * - only the first line can be empty, and it is empty exactly when the
   *   first word has 34 or more characters;
   * - there are no lines exactly when there are no words;
   * - the wrap is greedy: each line is followed by one whose first word
   *   would have taken it to 35 characters or more.
   */
  lemma WrapProperties(ws: seq<string>)
    requires forall i :: 0 <= i < |ws| ==> IsWord(ws[i])
    ensures Flatten(Wrap(ws)) == ws
    ensures forall i :: 0 <= i < |Wrap(ws)| ==> Wrap(ws)[i] == Join(Words(Wrap(ws)[i]))
    ensures forall i :: 0 <= i < |Wrap(ws)| && |Words(Wrap(ws)[i])| >= 2 ==> |Wrap(ws)[i]| <= 34
    ensures forall i :: 1 <= i < |Wrap(ws)| ==> Wrap(ws)[i] != ""
    ensures (|Wrap(ws)| > 0 && Wrap(ws)[0] == "") <==> (ws != [] && |ws[0]| >= 34)
    ensures Wrap(ws) == [] <==> ws == []
    ensures forall i :: 1 <= i < |Wrap(ws)| ==>
      Words(Wrap(ws)[i]) != [] && |Wrap(ws)[i - 1] + " " + Words(Wrap(ws)[i])[0]| >= LineLimit
  {
    WrapIsGreedy(ws);
    WrapShape(ws);
  }

  /** What the loop invariant says of the finished wrap. */
  lemma WrapShape(ws: seq<string>)
    requires forall i :: 0 <= i < |ws| ==> IsWord(ws[i])
    ensures var lines := Wrap(ws);
      && Flatten(lines) == ws
      && (forall i :: 0 <= i < |lines| ==> WellFormed(lines[i]))
      && (forall i :: 1 <= i < |lines| ==> lines[i] != "")
      && ((|lines| > 0 && lines[0] == "") <==> (ws != [] && |ws[0]| >= 34))
      && (lines == [] <==> ws == [])
  {
    PlaceAllInv(ws);
    FinishKeeps(PlaceAll(ws), ws);
  }

  /** Appending the nonempty current line to the finished lines keeps what Inv says of lines. */
  lemma FinishKeeps(st: WrapState, ws: seq<string>)
    requires Inv(st, ws)
    ensures var lines := if st.current != "" then st.lines + [st.current] else st.lines;
      && Flatten(lines) == ws
      && (forall i :: 0 <= i < |lines| ==> WellFormed(lines[i]))
      && (forall i :: 1 <= i < |lines| ==> lines[i] != "")
      && ((|lines| > 0 && lines[0] == "") <==> (ws != [] && |ws[0]| >= 34))
      && (lines == [] <==> ws == [])
  {
    if st.current != "" {
      FlattenSnoc(st.lines, st.current);
    } else {
      assert Words(st.current) == [];
      assert Flatten(st.lines) + [] == Flatten(st.lines);
    }
  }

  /** The prompt's wrap reads back as prompt.split(); a blank prompt gives no lines. */
  lemma WrapPromptProperties(prompt: string)
    ensures Flatten(Wrap(Words(prompt))) == Words(prompt)
    ensures Wrap(Words(prompt)) == [] <==> forall k :: 0 <= k < |prompt| ==> IsSpace(prompt[k])
  {
    WrapProperties(Words(prompt));
    NoWordsIffBlank(prompt);
  }

  /** The wrap loop of generate_enhanced_placeholder, over prompt.split(). */
  method WrapPrompt(prompt: string) returns (lines: seq<string>)
    ensures lines == Wrap(Words(prompt))
  {
    var words := Words(prompt);
    lines := [];
    var current := "";
    var i := 0;
    while i < |words|
      invariant 0 <= i <= |words|
      invariant WrapState(lines, current) == PlaceAll(words[..i])
    {
      var word := words[i];
      assert words[..i + 1][..i] == words[..i];
      ghost var next := Place(WrapState(lines, current), word);
      assert PlaceAll(words[..i + 1]) == next;
      if |current + " " + word| < LineLimit {
        current := if current != "" then current + " " + word else word;
      } else {
        lines := lines + [current];
        current := word;
      }
      assert WrapState(lines, current) == next;
      i := i + 1;
    }
    assert words[..|words|] == words;
    if current != "" {
      lines := lines + [current];
    }
  }
}
