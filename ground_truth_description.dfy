/** `GroundTruthDescription`: the textual description of a ground truth in
    the format of Liu et al. (CVPR 2007), three lines

        path of the image
        width height
        left top right bottom; left top right bottom; ...

    parsed into the image name, the image size and a list of rectangles
    with inclusive corner coordinates, and a flag that says whether the
    whole text parsed. */
module GroundTruthDescriptions {
  import opened Wrappers
  import opened JavaLang
  import opened FileUtil

  /** `java.awt.Rectangle`: the top-left corner and the extent. */
  datatype Rectangle = Rectangle(x: int, y: int, width: int, height: int)

  /** `java.awt.Dimension`. */
  datatype Dimension = Dimension(width: int, height: int)

  // ---------------------------------------------------------------------
  // What the parser reads, as functions of the text

  /** The lines the parser sees: the non-empty newline-separated runs of the
      trimmed text. */
  function Lines(text: string): seq<string> {
    Tokens(Trim(text), '\n')
  }

  /** The image size: the first two space-separated fields of a line, each
      an integer; further fields are not read. */
  function ParseSize(line: string): Option<Dimension> {
    var f := Tokens(line, ' ');
    if |f| < 2 then None
    else match (ParseInt(f[0]), ParseInt(f[1]))
      case (Some(w), Some(h)) => Some(Dimension(w, h))
      case _ => None
  }

  /** One rectangle token: its first four space-separated fields are
      integers `left top right bottom`, and the rectangle spans columns
      `left..right` and rows `top..bottom`, both ends included. */
  function ParseRect(token: string): Option<Rectangle> {
    var f := Tokens(token, ' ');
    if |f| < 4 then None else RectOfFields(f[0], f[1], f[2], f[3])
  }

  /** The rectangle of the fields `left top right bottom`, if all four are
      integers. */
  function RectOfFields(left: string, top: string, right: string, bottom: string): Option<Rectangle> {
    var x1, y1, x2, y2 := ParseInt(left), ParseInt(top), ParseInt(right), ParseInt(bottom);
    if x1.Some? && y1.Some? && x2.Some? && y2.Some? then
      Some(Rectangle(x1.value, y1.value, x2.value - x1.value + 1, y2.value - y1.value + 1))
    else None
  }

  /** The items read from a sequence of tokens, and whether every token was
      read; reading stops at the first token `read` rejects. */
  datatype ReadOutcome<T> = ReadOutcome(items: seq<T>, complete: bool)

  function ReadAll<T>(ts: seq<string>, read: string -> Option<T>): (r: ReadOutcome<T>)
    ensures |r.items| <= |ts|
    ensures forall k :: 0 <= k < |r.items| ==> read(ts[k]) == Some(r.items[k])
    ensures r.complete <==> forall k :: 0 <= k < |ts| ==> read(ts[k]).Some?
    ensures r.complete ==> |r.items| == |ts|
    ensures !r.complete ==> read(ts[|r.items|]).None?
  {
    if |ts| == 0 then ReadOutcome([], true)
    else
      var prev := ReadAll(ts[..|ts| - 1], read);
      if !prev.complete then ReadOutcome(prev.items, false)
      else match read(ts[|ts| - 1])
        case None => ReadOutcome(prev.items, false)
        case Some(item) => ReadOutcome(prev.items + [item], true)
  }

  /** The rectangles of the tokens of the third line. */
  function ParseRects(ts: seq<string>): ReadOutcome<Rectangle> {
    ReadAll(ts, ParseRect)
  }

  /** Everything `parseDescription` leaves behind: the fields it got to
      assign (`None` for those it did not reach), the rectangles appended
      before it stopped, and the `valid` flag. */
  datatype Parsed = Parsed(
    path: Option<string>,
    name: Option<string>,
    size: Option<Dimension>,
    rects: seq<Rectangle>,
    valid: bool)

  function Parse(text: string): Parsed {
    ParseLines(Lines(text))
  }

  /** The outcome of parsing, as a function of the lines. */
  function ParseLines(lines: seq<string>): Parsed {
    if |lines| == 0 then Parsed(None, None, None, [], false)
    else if !HasBaseName(lines[0]) then Parsed(Some(lines[0]), None, None, [], false)
    else
      var name := FileNameWithoutEnding(lines[0]);
      if |lines| < 2 then Parsed(Some(lines[0]), Some(name), None, [], false)
      else match ParseSize(lines[1])
        case None => Parsed(Some(lines[0]), Some(name), None, [], false)
        case Some(size) =>
          if |lines| < 3 then Parsed(Some(lines[0]), Some(name), Some(size), [], false)
          else
            var rl := ParseRects(Tokens(lines[2], ';'));
            Parsed(Some(lines[0]), Some(name), Some(size), rl.items, rl.complete)
  }

  /** Where parsing stops before the rectangle line, and what it has
      assigned by then. */
  lemma StopsEarly(lines: seq<string>)
    requires |lines| < 3 || !HasBaseName(lines[0]) || ParseSize(lines[1]).None?
    ensures var p := ParseLines(lines);
      && !p.valid && p.rects == []
      && p.path == (if |lines| == 0 then None else Some(lines[0]))
      && p.name == (if |lines| == 0 || !HasBaseName(lines[0]) then None else Some(FileNameWithoutEnding(lines[0])))
      && p.size == (if |lines| < 2 || !HasBaseName(lines[0]) then None else ParseSize(lines[1]))
  {
  }

  /** What parsing assigns when it gets to the rectangle line. */
  lemma ReachesRectangles(lines: seq<string>)
    requires |lines| >= 3 && HasBaseName(lines[0]) && ParseSize(lines[1]).Some?
    ensures var rl := ParseRects(Tokens(lines[2], ';'));
      ParseLines(lines) == Parsed(Some(lines[0]), Some(FileNameWithoutEnding(lines[0])), ParseSize(lines[1]), rl.items, rl.complete)
  {
  }

  // ---------------------------------------------------------------------
  // Properties of the parser

  /** Three lines, a base name in the first, two integers first in the
      second, and a rectangle in every ';'-separated token of the third. */
  predicate Complete(lines: seq<string>) {
    && |lines| >= 3
    && HasBaseName(lines[0])
    && ParseSize(lines[1]).Some?
    && forall k :: 0 <= k < |Tokens(lines[2], ';')| ==> ParseRect(Tokens(lines[2], ';')[k]).Some?
  }

  lemma ValidOnlyIfComplete(lines: seq<string>)
    ensures ParseLines(lines).valid ==> Complete(lines)
  {
  }

  lemma {:induction false} ValidIfComplete(lines: seq<string>)
    requires Complete(lines)
    ensures ParseLines(lines).valid
  {
    var ts := Tokens(lines[2], ';');
    assert ParseRects(ts).complete;
    var size := ParseSize(lines[1]).value;
    var name := FileNameWithoutEnding(lines[0]);
    assert ParseLines(lines) == Parsed(Some(lines[0]), Some(name), Some(size), ParseRects(ts).items, ParseRects(ts).complete);
  }

  /** A description is valid exactly when its lines are complete. */
  lemma ValidIff(text: string)
    ensures Parse(text).valid <==> Complete(Lines(text))
  {
    ValidOnlyIfComplete(Lines(text));
    if Complete(Lines(text)) {
      ValidIfComplete(Lines(text));
    }
  }

  /** A valid description holds one rectangle per token of the third line,
      in textual order; its name is the base name of the first line and its
      size the first two fields of the second. */
  lemma ValidContents(text: string)
    requires Parse(text).valid
    ensures var lines := Lines(text); var ts := Tokens(lines[2], ';');
      && Parse(text).path == Some(lines[0])
      && Parse(text).name == Some(FileNameWithoutEnding(lines[0]))
      && Parse(text).size == ParseSize(lines[1])
      && |Parse(text).rects| == |ts|
      && forall k :: 0 <= k < |ts| ==> ParseRect(ts[k]) == Some(Parse(text).rects[k])
  {
    ValidOnlyIfComplete(Lines(text));
    ReachesRectangles(Lines(text));
  }

  /** A description parsed partway keeps, in order, the rectangles of the
      tokens before the first one that failed. */
  lemma InvalidKeepsPrefix(text: string)
    requires !Parse(text).valid
    requires |Lines(text)| >= 3 && Parse(text).size.Some?
    ensures var ts := Tokens(Lines(text)[2], ';');
      && |Parse(text).rects| < |ts|
      && ParseRect(ts[|Parse(text).rects|]).None?
      && forall k :: 0 <= k < |Parse(text).rects| ==> ParseRect(ts[k]) == Some(Parse(text).rects[k])
  {
    var lines := Lines(text);
    assert Parse(text) == ParseLines(lines);
    SizeReached(lines);
    ReachesRectangles(lines);
  }

  /** A size is assigned only after a first line with a base name, and it
      is the size read from the second line. */
  lemma SizeReached(lines: seq<string>)
    ensures ParseLines(lines).size.Some? ==>
      |lines| >= 2 && HasBaseName(lines[0]) && ParseLines(lines).size == ParseSize(lines[1])
  {
  }

  /** Delimiters at the start, at the end or in a row give no tokens. */
  lemma DelimitersIgnored(a: string, b: string, d: char)
    ensures Tokens([d] + b, d) == Tokens(b, d)
    ensures Tokens(a + [d], d) == Tokens(a, d)
    ensures Tokens(a + [d, d] + b, d) == Tokens(a + [d] + b, d)
  {
    TokensAppend([], b, d);
    assert [] + [d] + b == [d] + b;
    TokensAppend(a, [], d);
    assert a + [d] + [] == a + [d];
    TokensAppend(a, [d] + b, d);
    assert a + [d] + ([d] + b) == a + [d, d] + b;
    TokensAppend(a, b, d);
  }

  /** The delimiter-glued concatenation of two strings tokenises into the
      tokens of each. */
  lemma {:induction false} TokensAppend(a: string, b: string, d: char)
    ensures Tokens(a + [d] + b, d) == Tokens(a, d) + Tokens(b, d)
    decreases |a|
  {
    var s := a + [d] + b;
    if |a| == 0 {
      assert s[1..] == b;
    } else if a[0] == d {
      assert s[1..] == a[1..] + [d] + b;
      TokensAppend(a[1..], b, d);
    } else {
      var n := RunLength(a, d);
      TokensAppendRun(a, b, d, n);
      TokensAppend(a[n..], b, d);
    }
  }

  /** The first token of `a + [d] + b` is the first token of `a`. */
  lemma TokensAppendRun(a: string, b: string, d: char, n: nat)
    requires |a| > 0 && a[0] != d && n == RunLength(a, d)
    ensures Tokens(a + [d] + b, d) == [a[..n]] + Tokens(a[n..] + [d] + b, d)
    ensures Tokens(a, d) == [a[..n]] + Tokens(a[n..], d)
  {
    var s := a + [d] + b;
    RunLengthAppend(a, [d] + b, d);
    assert s == a + ([d] + b);
    assert RunLength(s, d) == n;
    assert s[..n] == a[..n];
    assert s[n..] == a[n..] + [d] + b;
  }

  lemma {:induction false} RunLengthAppend(a: string, rest: string, d: char)
    requires |rest| == 0 || rest[0] == d
    ensures RunLength(a + rest, d) == RunLength(a, d)
    decreases |a|
  {
    if |a| > 0 && a[0] != d {
      assert (a + rest)[1..] == a[1..] + rest;
      RunLengthAppend(a[1..], rest, d);
    }
  }

  /** Fields after the second one of the size line are ignored. */
  lemma ExtraSizeFieldsIgnored(line: string, extra: string)
    requires |Tokens(line, ' ')| >= 2
    ensures ParseSize(line + " " + extra) == ParseSize(line)
  {
    TokensAppend(line, extra, ' ');
    var f, g := Tokens(line, ' '), Tokens(line + " " + extra, ' ');
    assert |g| >= 2 && g[0] == f[0] && g[1] == f[1];
  }

  /** Fields after the fourth one of a rectangle token are ignored. */
  lemma ExtraRectFieldsIgnored(token: string, extra: string)
    requires |Tokens(token, ' ')| >= 4
    ensures ParseRect(token + " " + extra) == ParseRect(token)
  {
    TokensAppend(token, extra, ' ');
    SameFieldsSameRect(token, token + " " + extra);
  }

  /** A rectangle token is decided by its first four fields. */
  lemma SameFieldsSameRect(token: string, other: string)
    requires |Tokens(token, ' ')| >= 4 && |Tokens(other, ' ')| >= 4
    requires Tokens(token, ' ')[..4] == Tokens(other, ' ')[..4]
    ensures ParseRect(token) == ParseRect(other)
  {
    var f, g := Tokens(token, ' '), Tokens(other, ' ');
    assert f[0] == f[..4][0] == g[..4][0] == g[0];
    assert f[1] == f[..4][1] == g[..4][1] == g[1];
    assert f[2] == f[..4][2] == g[..4][2] == g[2];
    assert f[3] == f[..4][3] == g[..4][3] == g[3];
  }

  // ---------------------------------------------------------------------
  // Round trip: the description a writer of the format produces

  /** A rectangle written as `left top right bottom`. */
  function RectText(l: int, t: int, r: int, b: int): string {
    JoinTokens(RectFields(l, t, r, b), ' ')
  }

  /** The rectangles written as `left top right bottom` tokens. */
  function RectTexts(boxes: seq<(int, int, int, int)>): (r: seq<string>)
    ensures |r| == |boxes|
    ensures forall k :: 0 <= k < |boxes| ==> r[k] == RectText(boxes[k].0, boxes[k].1, boxes[k].2, boxes[k].3)
  {
    seq(|boxes|, k requires 0 <= k < |boxes| => RectText(boxes[k].0, boxes[k].1, boxes[k].2, boxes[k].3))
  }

  /** A three-line description. */
  function Format(path: string, w: int, h: int, boxes: seq<(int, int, int, int)>): string {
    JoinTokens([path, SizeLine(w, h), RectLine(boxes)], '\n')
  }

  predicate InIntRange(n: int) { INT_MIN <= n <= INT_MAX }

  predicate NumberChar(c: char) { c == '-' || IsDigit(c) }

  lemma ShowNatChars(n: nat)
    ensures forall i :: 0 <= i < |ShowNat(n)| ==> IsDigit(ShowNat(n)[i])
  {
  }

  lemma ShowIntChars(n: int)
    ensures |ShowInt(n)| > 0 && IsDigit(ShowInt(n)[|ShowInt(n)| - 1])
    ensures forall i :: 0 <= i < |ShowInt(n)| ==> NumberChar(ShowInt(n)[i])
  {
    if n < 0 {
      ShowNatChars(-n);
      assert ShowInt(n) == "-" + ShowNat(-n);
    } else {
      ShowNatChars(n);
    }
  }

  /** A character in no token and different from the delimiter is not in the
      joined text. */
  lemma {:induction false} JoinTokensAvoids(ts: seq<string>, d: char, c: char)
    requires c != d && forall k :: 0 <= k < |ts| ==> c !in ts[k]
    ensures c !in JoinTokens(ts, d)
    decreases |ts|
  {
    if |ts| > 1 {
      JoinTokensAvoids(ts[1..], d, c);
    }
  }

  /** The joined text ends with the last token. */
  lemma {:induction false} JoinTokensEnd(ts: seq<string>, d: char)
    requires |ts| > 0
    ensures var j := JoinTokens(ts, d); |j| >= |ts[|ts| - 1]| && j[|j| - |ts[|ts| - 1]|..] == ts[|ts| - 1]
    decreases |ts|
  {
    if |ts| > 1 {
      JoinTokensEnd(ts[1..], d);
      var rest := JoinTokens(ts[1..], d);
      var last := ts[|ts| - 1];
      assert ts[1..][|ts| - 2] == last;
      var j := JoinTokens(ts, d);
      assert j == ts[0] + [d] + rest;
      assert j[|j| - |last|..] == rest[|rest| - |last|..];
    }
  }

  /** The four fields of a rectangle token. */
  function RectFields(l: int, t: int, r: int, b: int): seq<string> {
    [ShowInt(l), ShowInt(t), ShowInt(r), ShowInt(b)]
  }

  lemma RectFieldsPlain(l: int, t: int, r: int, b: int)
    ensures forall k :: 0 <= k < 4 ==>
      var f := RectFields(l, t, r, b)[k]; |f| > 0 && ' ' !in f && ';' !in f && '\n' !in f
    ensures IsDigit(ShowInt(b)[|ShowInt(b)| - 1])
  {
    ShowIntPlain(l);
    ShowIntPlain(t);
    ShowIntPlain(r);
    ShowIntPlain(b);
    ShowIntChars(b);
  }

  /** A written integer holds no separator of the format. */
  lemma ShowIntPlain(n: int)
    ensures |ShowInt(n)| > 0 && ' ' !in ShowInt(n) && ';' !in ShowInt(n) && '\n' !in ShowInt(n)
  {
    ShowIntChars(n);
    var f := ShowInt(n);
    forall i | 0 <= i < |f|
      ensures f[i] != ' ' && f[i] != ';' && f[i] != '\n'
    {
      assert NumberChar(f[i]);
    }
  }

  /** A rectangle token holds no ';' and no newline, and ends with a digit. */
  lemma RectTextPlain(l: int, t: int, r: int, b: int)
    ensures |RectText(l, t, r, b)| > 0
    ensures ';' !in RectText(l, t, r, b) && '\n' !in RectText(l, t, r, b)
    ensures IsDigit(RectText(l, t, r, b)[|RectText(l, t, r, b)| - 1])
  {
    var fs := RectFields(l, t, r, b);
    RectFieldsPlain(l, t, r, b);
    JoinTokensAvoids(fs, ' ', ';');
    JoinTokensAvoids(fs, ' ', '\n');
    JoinTokensEnd(fs, ' ');
  }

  /** A rectangle written as `left top right bottom` reads back with its
      inclusive extent. */
  lemma RectTextParses(box: (int, int, int, int))
    requires InIntRange(box.0) && InIntRange(box.1) && InIntRange(box.2) && InIntRange(box.3)
    ensures var (l, t, r, b) := box;
      ParseRect(RectText(l, t, r, b)) == Some(Rectangle(l, t, r - l + 1, b - t + 1))
    ensures ParseRect(RectText(box.0, box.1, box.2, box.3)) == Some(BoxRect(box))
  {
    var (l, t, r, b) := box;
    var fs := RectFields(l, t, r, b);
    RectFieldsPlain(l, t, r, b);
    TokensOfJoin(fs, ' ');
    var text := RectText(l, t, r, b);
    assert Tokens(text, ' ') == fs;
    assert ParseRect(text) == RectOfFields(ShowInt(l), ShowInt(t), ShowInt(r), ShowInt(b));
    ParseIntShowInt(l);
    ParseIntShowInt(t);
    ParseIntShowInt(r);
    ParseIntShowInt(b);
    RectOfReadFields(ShowInt(l), ShowInt(t), ShowInt(r), ShowInt(b), box);
  }

  /** Four fields that read as the corners of a box make its rectangle. */
  lemma RectOfReadFields(left: string, top: string, right: string, bottom: string, box: (int, int, int, int))
    requires ParseInt(left) == Some(box.0) && ParseInt(top) == Some(box.1)
    requires ParseInt(right) == Some(box.2) && ParseInt(bottom) == Some(box.3)
    ensures var (l, t, r, b) := box;
      RectOfFields(left, top, right, bottom) == Some(Rectangle(l, t, r - l + 1, b - t + 1))
    ensures RectOfFields(left, top, right, bottom) == Some(BoxRect(box))
  {
  }

  /** The third line: the rectangle tokens separated by ';'. */
  function RectLine(boxes: seq<(int, int, int, int)>): string {
    JoinTokens(RectTexts(boxes), ';')
  }

  /** The second line: width and height separated by a space. */
  function SizeLine(w: int, h: int): string {
    JoinTokens([ShowInt(w), ShowInt(h)], ' ')
  }

  predicate BoxesInRange(boxes: seq<(int, int, int, int)>) {
    forall k :: 0 <= k < |boxes| ==>
      InIntRange(boxes[k].0) && InIntRange(boxes[k].1) && InIntRange(boxes[k].2) && InIntRange(boxes[k].3)
  }

  /** The rectangle a box `(left, top, right, bottom)` stands for. */
  function BoxRect(box: (int, int, int, int)): Rectangle {
    Rectangle(box.0, box.1, box.2 - box.0 + 1, box.3 - box.1 + 1)
  }

  lemma SizeLineParses(w: int, h: int)
    requires InIntRange(w) && InIntRange(h)
    ensures |SizeLine(w, h)| > 0 && '\n' !in SizeLine(w, h)
    ensures ParseSize(SizeLine(w, h)) == Some(Dimension(w, h))
  {
    var fs := [ShowInt(w), ShowInt(h)];
    ShowIntChars(w);
    ShowIntChars(h);
    assert forall k :: 0 <= k < 2 ==> |fs[k]| > 0 && ' ' !in fs[k] && '\n' !in fs[k];
    TokensOfJoin(fs, ' ');
    JoinTokensAvoids(fs, ' ', '\n');
    ParseIntShowInt(w);
    ParseIntShowInt(h);
  }

  lemma RectTextsPlain(boxes: seq<(int, int, int, int)>)
    ensures forall k :: 0 <= k < |boxes| ==>
      var text := RectTexts(boxes)[k]; |text| > 0 && ';' !in text && '\n' !in text
  {
    forall k | 0 <= k < |boxes|
      ensures var text := RectTexts(boxes)[k]; |text| > 0 && ';' !in text && '\n' !in text
    {
      RectTextPlain(boxes[k].0, boxes[k].1, boxes[k].2, boxes[k].3);
    }
  }

  lemma RectLinePlain(boxes: seq<(int, int, int, int)>)
    requires |boxes| > 0
    ensures |RectLine(boxes)| > 0 && '\n' !in RectLine(boxes)
    ensures IsDigit(RectLine(boxes)[|RectLine(boxes)| - 1])
  {
    var texts := RectTexts(boxes);
    RectTextsPlain(boxes);
    JoinTokensAvoids(texts, ';', '\n');
    JoinTokensEnd(texts, ';');
    var n := |boxes| - 1;
    RectTextPlain(boxes[n].0, boxes[n].1, boxes[n].2, boxes[n].3);
    var line, last := RectLine(boxes), texts[n];
    assert line[|line| - 1] == last[|last| - 1];
  }

  /** When `read` accepts every token, reading yields all their items. */
  lemma ReadAllAccepts<T>(ts: seq<string>, read: string -> Option<T>, items: seq<T>)
    requires |items| == |ts|
    requires forall k :: 0 <= k < |ts| ==> read(ts[k]) == Some(items[k])
    ensures ReadAll(ts, read) == ReadOutcome(items, true)
  {
    var r := ReadAll(ts, read);
    assert r.complete;
    assert r.items == items;
  }

  lemma RectTextsParse(boxes: seq<(int, int, int, int)>)
    requires BoxesInRange(boxes)
    ensures forall k :: 0 <= k < |boxes| ==> ParseRect(RectTexts(boxes)[k]) == Some(BoxRect(boxes[k]))
  {
    forall k | 0 <= k < |boxes|
      ensures ParseRect(RectTexts(boxes)[k]) == Some(BoxRect(boxes[k]))
    {
      var box := boxes[k];
      assert RectTexts(boxes)[k] == RectText(box.0, box.1, box.2, box.3);
      RectTextParses(box);
    }
  }

  lemma RectLineParses(boxes: seq<(int, int, int, int)>)
    requires BoxesInRange(boxes)
    ensures ParseRects(Tokens(RectLine(boxes), ';')) == ReadOutcome(seq(|boxes|, k requires 0 <= k < |boxes| => BoxRect(boxes[k])), true)
  {
    var texts := RectTexts(boxes);
    RectTextsPlain(boxes);
    TokensOfJoin(texts, ';');
    RectTextsParse(boxes);
    ReadAllAccepts(texts, ParseRect, seq(|boxes|, k requires 0 <= k < |boxes| => BoxRect(boxes[k])));
  }

  lemma FormatLines(path: string, w: int, h: int, boxes: seq<(int, int, int, int)>)
    requires |path| > 0 && '\n' !in path && !IsTrimmed(path[0])
    requires InIntRange(w) && InIntRange(h)
    requires |boxes| > 0 && BoxesInRange(boxes)
    ensures Lines(Format(path, w, h, boxes)) == [path, SizeLine(w, h), RectLine(boxes)]
  {
    var size, rectLine := SizeLine(w, h), RectLine(boxes);
    SizeLinePlain(w, h);
    RectLinePlain(boxes);
    var lines := [path, size, rectLine];
    var text := JoinTokens(lines, '\n');
    JoinThree(path, size, rectLine, '\n');
    assert text[0] == path[0];
    assert text[|text| - 1] == rectLine[|rectLine| - 1];
    TrimKeepsTrimmed(text);
    assert forall k :: 0 <= k < |lines| ==> |lines[k]| > 0 && '\n' !in lines[k];
    TokensOfJoin(lines, '\n');
  }

  lemma JoinThree(a: string, b: string, c: string, d: char)
    ensures JoinTokens([a, b, c], d) == a + [d] + (b + [d] + c)
  {
    assert [b, c][1..] == [c];
    assert JoinTokens([b, c], d) == b + [d] + c;
    assert [a, b, c][1..] == [b, c];
  }

  lemma SizeLinePlain(w: int, h: int)
    ensures |SizeLine(w, h)| > 0 && '\n' !in SizeLine(w, h)
  {
    var fs := [ShowInt(w), ShowInt(h)];
    ShowIntChars(w);
    ShowIntChars(h);
    JoinTokensAvoids(fs, ' ', '\n');
  }

  /** Reading back a description written in the format recovers the path,
      the base name, the size and every rectangle with its inclusive
      extent, and the description is valid. */
  lemma FormatRoundTrip(path: string, w: int, h: int, boxes: seq<(int, int, int, int)>)
    requires |path| > 0 && '\n' !in path && !IsTrimmed(path[0]) && HasBaseName(path)
    requires InIntRange(w) && InIntRange(h)
    requires |boxes| > 0 && BoxesInRange(boxes)
    ensures var p := Parse(Format(path, w, h, boxes));
      && p.valid
      && p.path == Some(path)
      && p.name == Some(FileNameWithoutEnding(path))
      && p.size == Some(Dimension(w, h))
      && |p.rects| == |boxes|
      && forall k :: 0 <= k < |boxes| ==> p.rects[k] == BoxRect(boxes[k])
  {
    FormatLines(path, w, h, boxes);
    SizeLineParses(w, h);
    RectLineParses(boxes);
  }

  // ---------------------------------------------------------------------
  // The parser object

  /** Parsing into fields that start out `null` and an empty list leaves
      exactly what was parsed. */
  lemma FromNothing(p: Parsed)
    ensures Assigned(None, p.path) == p.path && Assigned(None, p.name) == p.name
    ensures Assigned(None, p.size) == p.size && [] + p.rects == p.rects
  {
  }


  /** A field the parser assigns holds the parsed value, and one it does not
      reach keeps its previous value. */
  function Assigned<T>(previous: Option<T>, parsed: Option<T>): (r: Option<T>)
    ensures parsed.Some? ==> r == parsed
    ensures parsed.None? ==> r == previous
    ensures previous.None? ==> r == parsed
  {
    if parsed.Some? then parsed else previous
  }


  /** A parsed description. The fields the parser did not reach stay `null`
      (`None`). */
  class GroundTruthDescription {
    var imageName: Option<string>
    var imagePath: Option<string>
    var imageSize: Option<Dimension>
    var rectangles: seq<Rectangle>
    var valid: bool

    /** Starts from an empty rectangle list and parses the text. */
    constructor (description: string)
      ensures imagePath == Parse(description).path
      ensures imageName == Parse(description).name
      ensures imageSize == Parse(description).size
      ensures rectangles == Parse(description).rects
      ensures valid == Parse(description).valid
    {
      imageName, imagePath, imageSize := None, None, None;
      rectangles := [];
      valid := false;
      new;
      FromNothing(Parse(description));
      ParseDescription(description);
    }

    /** `parseDescription`: assigns the path, the name and the size as it
        reads them, appends a rectangle per token of the third line, and
        sets `valid` to whether it got to the end. Every failure (a missing
        line or field, a field that is not an integer, a path without a
        base name) is caught and only clears `valid`. */
    method ParseDescription(description: string)
      modifies this
      ensures var p := Parse(description);
        && imagePath == Assigned(old(imagePath), p.path)
        && imageName == Assigned(old(imageName), p.name)
        && imageSize == Assigned(old(imageSize), p.size)
        && rectangles == old(rectangles) + p.rects
        && valid == p.valid
    {
      var lines := Tokens(Trim(description), '\n');
      assert Parse(description) == ParseLines(lines);
      ReadLines(lines);
    }

    /** The body of `parseDescription` from the tokenised lines on. */
    method ReadLines(lines: seq<string>)
      modifies this
      ensures var p := ParseLines(lines);
        && imagePath == Assigned(old(imagePath), p.path)
        && imageName == Assigned(old(imageName), p.name)
        && imageSize == Assigned(old(imageSize), p.size)
        && rectangles == old(rectangles) + p.rects
        && valid == p.valid
    {
      if |lines| == 0 {
        StopsEarly(lines);
        valid := false;
        return;
      }
      imagePath := Some(lines[0]);
      if !HasBaseName(lines[0]) {
        StopsEarly(lines);
        valid := false;
        return;
      }
      imageName := Some(FileNameWithoutEnding(lines[0]));
      if |lines| < 2 {
        StopsEarly(lines);
        valid := false;
        return;
      }
      var size := ParseSize(lines[1]);
      if size.None? {
        StopsEarly(lines);
        valid := false;
        return;
      }
      imageSize := size;
      if |lines| < 3 {
        StopsEarly(lines);
        valid := false;
        return;
      }
      ReachesRectangles(lines);
      ReadRectangles(Tokens(lines[2], ';'));
    }

    /** The rectangle loop of `parseDescription`: appends a rectangle per
        token until a token fails to parse, and sets `valid` only when every
        token parsed. */
    method ReadRectangles(rectTokens: seq<string>)
      modifies this
      ensures rectangles == old(rectangles) + ParseRects(rectTokens).items
      ensures valid == ParseRects(rectTokens).complete
      ensures imagePath == old(imagePath) && imageName == old(imageName) && imageSize == old(imageSize)
    {
      var k := 0;
      while k < |rectTokens|
        invariant 0 <= k <= |rectTokens|
        invariant ParseRects(rectTokens[..k]).complete
        invariant rectangles == old(rectangles) + ParseRects(rectTokens[..k]).items
        invariant imagePath == old(imagePath) && imageName == old(imageName) && imageSize == old(imageSize)
      {
        var rect := ParseRect(rectTokens[k]);
        if rect.None? {
          FailureStops(rectTokens, ParseRect, k);
          valid := false;
          return;
        }
        ReadAllStep(rectTokens, ParseRect, k);
        rectangles := rectangles + [rect.value];
        k := k + 1;
      }
      assert rectTokens[..k] == rectTokens;
      valid := true;
    }

    /** `isValid`: whether the last parse got to the end. */
    function IsValid(): (r: bool)
      reads this
      ensures r <==> valid
    {
      valid
    }
  }

  /** Reading one more accepted token appends its item. */
  lemma ReadAllStep<T>(ts: seq<string>, read: string -> Option<T>, k: nat)
    requires k < |ts| && ReadAll(ts[..k], read).complete && read(ts[k]).Some?
    ensures ReadAll(ts[..k + 1], read) == ReadOutcome(ReadAll(ts[..k], read).items + [read(ts[k]).value], true)
  {
    assert ts[..k + 1][..k] == ts[..k];
  }

  /** When every token before `k` is read and token `k` is not, the items
      are those of the tokens before `k`. */
  lemma {:induction false} FailureStops<T>(ts: seq<string>, read: string -> Option<T>, k: nat)
    requires k < |ts| && ReadAll(ts[..k], read).complete && read(ts[k]).None?
    ensures ReadAll(ts, read) == ReadOutcome(ReadAll(ts[..k], read).items, false)
    decreases |ts|
  {
    var init := ts[..|ts| - 1];
    if |ts| == k + 1 {
      assert init == ts[..k];
    } else {
      assert init[..k] == ts[..k];
      assert init[k] == ts[k];
      FailureStops(init, read, k);
    }
  }
}
