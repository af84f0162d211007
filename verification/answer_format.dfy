/** `formatAnswerToHtml` of the report route: the answer is escaped, split on
    "\n", and each trimmed line becomes one block element of the e-mail body;
    consecutive bullet lines are wrapped in one `<ul>`. The four line regexes
    and the `**bold**` replace are written out as matchers on the trimmed line;
    the layout is modelled first as a sequence of pieces (open list, close
    list, element) and then rendered to the exact markup the route emits. */
module AnswerFormat {
  import opened Strings
  import opened HtmlEscape

  // ---------------------------------------------------------------- markup

  const HeadingOpen: string := "<h3 style=\"font-size: 15px; font-weight: 700; color: #1a73e8; margin: 28px 0 12px 0; padding-bottom: 8px; border-bottom: 2px solid #e8f0fe;\">"
  const HeadingClose: string := "</h3>"
  const ListOpen: string := "<ul style=\"margin: 8px 0; padding-left: 20px;\">"
  const ListClose: string := "</ul>"
  const ItemOpen: string := "<li style=\"margin-bottom: 6px; line-height: 1.8;\">"
  const ItemClose: string := "</li>"
  const StrongOpen: string := "<strong style=\"color: #202124;\">"
  const StrongClose: string := "</strong>"
  const NumberOpen: string := "<div style=\"margin-bottom: 8px; padding-left: 4px;\"><strong style=\"color: #4285F4;\">"
  const NumberClose: string := ".</strong> "
  const NumberedClose: string := "</div>"
  const SpacerDiv: string := "<div style=\"height: 12px;\"></div>"
  const ParagraphOpen: string := "<p style=\"margin: 0 0 8px 0; line-height: 1.9;\">"
  const ParagraphClose: string := "</p>"

  // ---------------------------------------------------------------- character runs

  predicate IsHash(c: char) { c == '#' }
  predicate IsDigit(c: char) { '0' <= c <= '9' }
  /** `[・\-\*]` */
  predicate IsBulletMark(c: char) { c == '・' || c == '-' || c == '*' }
  /** `[.．]` */
  predicate IsNumberDot(c: char) { c == '.' || c == '．' }

  /** The end of the longest run of characters satisfying `p` that starts at `i`. */
  function RunEnd(s: string, i: nat, p: char -> bool): (j: nat)
    requires i <= |s|
    ensures i <= j <= |s|
    ensures forall k :: i <= k < j ==> p(s[k])
    ensures j == |s| || !p(s[j])
    decreases |s| - i
  {
    if i < |s| && p(s[i]) then RunEnd(s, i + 1, p) else i
  }

  /** A run that stops at `k` ends at `k`. */
  lemma {:induction false} RunEndAt(s: string, i: nat, p: char -> bool, k: nat)
    requires i <= k <= |s|
    requires forall j :: i <= j < k ==> p(s[j])
    requires k == |s| || !p(s[k])
    ensures RunEnd(s, i, p) == k
    decreases k - i
  {
    if i < k {
      RunEndAt(s, i + 1, p, k);
    }
  }

  /** What a final `(.+)$` captures: at least one character, none a line terminator. */
  predicate IsCapture(s: string) {
    s != [] && NoLineTerminator(s)
  }

  // ---------------------------------------------------------------- the line regexes

  /** `/^【(.+?)】$/`: the text between a leading `【` and a final `】`. */
  function MatchBracketHeading(t: string): (m: Option<string>)
    ensures m.Some? <==> |t| >= 2 && t[0] == '【' && t[|t| - 1] == '】' && IsCapture(t[1..|t| - 1])
    ensures m.Some? ==> t == ['【'] + m.value + ['】']
  {
    if |t| >= 3 && t[0] == '【' && t[|t| - 1] == '】' && NoLineTerminator(t[1..|t| - 1]) then
      Some(t[1..|t| - 1])
    else None
  }

  /** `/^#{1,3}\s+(.+)$/`: the hashes are the whole leading run of `#`, and the
      greedy `\s+` takes the whole whitespace run after them. */
  function MatchMarkdownHeading(t: string): Option<string> {
    var h := RunEnd(t, 0, IsHash);
    if 1 <= h <= 3 then
      var w := RunEnd(t, h, IsWhitespace);
      if w > h && IsCapture(t[w..]) then Some(t[w..]) else None
    else None
  }

  /** `/^[・\-\*]\s*(.+)$/` */
  function MatchBullet(t: string): Option<string> {
    if t != [] && IsBulletMark(t[0]) then
      var w := RunEnd(t, 1, IsWhitespace);
      if IsCapture(t[w..]) then Some(t[w..]) else None
    else None
  }

  /** `/^(\d+)[.．]\s*(.+)$/`: the number and the item text. */
  function MatchNumbered(t: string): Option<(string, string)> {
    var d := RunEnd(t, 0, IsDigit);
    if 1 <= d < |t| && IsNumberDot(t[d]) then
      var w := RunEnd(t, d + 1, IsWhitespace);
      if IsCapture(t[w..]) then Some((t[..d], t[w..])) else None
    else None
  }

  /** A way for `/^#{1,3}\s+(.+)$/` to match `t`: `k` hashes, whitespace up to
      `n`, and the capture from `n` to the end. */
  predicate HeadingSplit(t: string, k: nat, n: nat) {
    1 <= k <= 3 && k < n <= |t|
    && (forall j :: 0 <= j < k ==> t[j] == '#')
    && (forall j :: k <= j < n ==> IsWhitespace(t[j]))
    && IsCapture(t[n..])
  }

  /** A way for `/^[・\-\*]\s*(.+)$/` to match `t`, the capture starting at `n`. */
  predicate BulletSplit(t: string, n: nat) {
    1 <= n <= |t| && IsBulletMark(t[0])
    && (forall j :: 1 <= j < n ==> IsWhitespace(t[j]))
    && IsCapture(t[n..])
  }

  /** A way for `/^(\d+)[.．]\s*(.+)$/` to match `t`: digits up to `d`, the dot
      at `d`, whitespace up to `n`, the capture from `n`. */
  predicate NumberedSplit(t: string, d: nat, n: nat) {
    1 <= d < n <= |t|
    && (forall j :: 0 <= j < d ==> IsDigit(t[j]))
    && IsNumberDot(t[d])
    && (forall j :: d + 1 <= j < n ==> IsWhitespace(t[j]))
    && IsCapture(t[n..])
  }

  /** On a trimmed line the heading matcher agrees with the regex: it matches
      exactly when some split does, and its capture is the one after the
      longest whitespace run, as the greedy `\s+` leaves it. */
  lemma MarkdownHeadingIsRegex(t: string)
    requires IsTrimmed(t)
    ensures var m := MatchMarkdownHeading(t);
      (m.Some? ==> exists k: nat, n: nat :: HeadingSplit(t, k, n) && m.value == t[n..])
      && (forall k: nat, n: nat :: HeadingSplit(t, k, n) ==> m.Some? && n <= |t| - |m.value|)
  {
    var m := MatchMarkdownHeading(t);
    var h := RunEnd(t, 0, IsHash);
    if m.Some? {
      var w := RunEnd(t, h, IsWhitespace);
      assert HeadingSplit(t, h, w);
    }
    forall k: nat, n: nat | HeadingSplit(t, k, n) ensures m.Some? && n <= |t| - |m.value| {
      RunEndAt(t, 0, IsHash, k);
      var w := RunEnd(t, k, IsWhitespace);
      assert n <= w;
      assert w < |t| by {
        assert !IsWhitespace(t[|t| - 1]);
      }
      assert NoLineTerminator(t[w..]) by {
        assert t[w..] == t[n..][w - n..];
      }
    }
  }

  /** On a trimmed line the bullet matcher agrees with the regex, its capture
      starting after the longest whitespace run. */
  lemma BulletIsRegex(t: string)
    requires IsTrimmed(t)
    ensures var m := MatchBullet(t);
      (m.Some? ==> exists n: nat :: BulletSplit(t, n) && m.value == t[n..])
      && (forall n: nat :: BulletSplit(t, n) ==> m.Some? && n <= |t| - |m.value|)
  {
    var m := MatchBullet(t);
    if m.Some? {
      assert BulletSplit(t, RunEnd(t, 1, IsWhitespace));
    }
    forall n: nat | BulletSplit(t, n) ensures m.Some? && n <= |t| - |m.value| {
      var w := RunEnd(t, 1, IsWhitespace);
      assert n <= w;
      assert w < |t| by {
        assert !IsWhitespace(t[|t| - 1]);
      }
      assert NoLineTerminator(t[w..]) by {
        assert t[w..] == t[n..][w - n..];
      }
    }
  }

  /** On a trimmed line the numbered-item matcher agrees with the regex: the
      number is the whole leading digit run and the text follows the longest
      whitespace run after the dot. */
  lemma NumberedIsRegex(t: string)
    requires IsTrimmed(t)
    ensures var m := MatchNumbered(t);
      (m.Some? ==> exists d: nat, n: nat :: NumberedSplit(t, d, n) && m.value == (t[..d], t[n..]))
      && (forall d: nat, n: nat :: NumberedSplit(t, d, n) ==> m.Some? && m.value.0 == t[..d] && n <= |t| - |m.value.1|)
  {
    var m := MatchNumbered(t);
    if m.Some? {
      var d := RunEnd(t, 0, IsDigit);
      assert NumberedSplit(t, d, RunEnd(t, d + 1, IsWhitespace));
    }
    forall d: nat, n: nat | NumberedSplit(t, d, n) ensures m.Some? && m.value.0 == t[..d] && n <= |t| - |m.value.1| {
      RunEndAt(t, 0, IsDigit, d);
      var w := RunEnd(t, d + 1, IsWhitespace);
      assert n <= w;
      assert w < |t| by {
        assert !IsWhitespace(t[|t| - 1]);
      }
      assert NoLineTerminator(t[w..]) by {
        assert t[w..] == t[n..][w - n..];
      }
    }
  }

  // ---------------------------------------------------------------- `**` handling

  /** Text left alone, or the capture of a `**…**` pair shown bold. */
  datatype Inline = Plain(s: string) | Strong(s: string)

  /** No `**` starts anywhere in `s`. */
  predicate NoStarPair(s: string) {
    forall k :: 0 <= k < |s| - 1 ==> !(s[k] == '*' && s[k + 1] == '*')
  }

  /** The first `**` in `s` at or after `from`. */
  function FindStars(s: string, from: nat): (r: Option<nat>)
    ensures r.Some? ==> from <= r.value && r.value + 2 <= |s| && s[r.value] == '*' && s[r.value + 1] == '*'
    ensures forall k :: from <= k < (if r.Some? then r.value else |s| - 1) ==> !(s[k] == '*' && s[k + 1] == '*')
    decreases |s| - from
  {
    if from + 2 > |s| then None
    else if s[from] == '*' && s[from + 1] == '*' then Some(from)
    else FindStars(s, from + 1)
  }

  // The bold replace of items and paragraphs, `/\*\*(.+?)\*\*/g`, scanning left
  // to right: at a `**` the lazy `.+?` stops at the first `**` that leaves it
  // non-empty, and no line terminator may lie in between; where no pair
  // matches, one character is kept and the scan moves on.
  function Emphasize(s: string): (r: seq<Inline>)
    ensures forall i :: 0 <= i < |r| && r[i].Strong? ==> IsCapture(r[i].s) && NoStarPair(r[i].s[1..])
    decreases |s|
  {
    if s == [] then []
    else
      var close := if StartsWith(s, "**") then FindStars(s, 3) else None;
      if close.Some? && NoLineTerminator(s[2..close.value]) then
        assert NoStarPair(s[2..close.value][1..]) by {
          assert s[2..close.value][1..] == s[3..close.value];
        }
        [Strong(s[2..close.value])] + Emphasize(s[close.value + 2..])
      else [Plain([s[0]])] + Emphasize(s[1..])
  }

  /** The source text of inline pieces: a bold capture with its `**` put back. */
  function Unparse(r: seq<Inline>): string {
    if r == [] then ""
    else (if r[0].Strong? then "**" + r[0].s + "**" else r[0].s) + Unparse(r[1..])
  }

  lemma UnparseCons(x: Inline, rest: seq<Inline>)
    ensures Unparse([x] + rest) == (if x.Strong? then "**" + x.s + "**" else x.s) + Unparse(rest)
  {
    assert ([x] + rest)[1..] == rest;
  }

  /** A text opening with `**` and holding a `**` at `q`, cut around both. */
  lemma StarsAround(s: string, q: nat)
    requires 2 <= q && q + 2 <= |s| && StartsWith(s, "**") && s[q] == '*' && s[q + 1] == '*'
    ensures s == "**" + s[2..q] + "**" + s[q + 2..]
  {
    assert s[..2] == "**";
  }

  /** The bold replace keeps every character of the text: undoing it gives the
      text back. */
  lemma {:induction false} EmphasizeRoundTrip(s: string)
    ensures Unparse(Emphasize(s)) == s
    decreases |s|
  {
    if s != [] {
      var close := if StartsWith(s, "**") then FindStars(s, 3) else None;
      if close.Some? && NoLineTerminator(s[2..close.value]) {
        var q := close.value;
        EmphasizeRoundTrip(s[q + 2..]);
        UnparseCons(Strong(s[2..q]), Emphasize(s[q + 2..]));
        StarsAround(s, q);
      } else {
        EmphasizeRoundTrip(s[1..]);
        UnparseCons(Plain([s[0]]), Emphasize(s[1..]));
        assert s == [s[0]] + s[1..];
      }
    }
  }

  /** The markup for inline pieces. */
  function RenderInline(r: seq<Inline>): string {
    if r == [] then ""
    else (if r[0].Strong? then StrongOpen + r[0].s + StrongClose else r[0].s) + RenderInline(r[1..])
  }

  // The heading title's `replace(/\*\*/g, "")`: every `**` removed, left to right.
  function RemoveStars(s: string): (r: string)
    ensures |r| <= |s|
    ensures forall c :: c in r ==> c in s
    ensures s != [] && !StartsWith(s, "**") ==> r != [] && r[0] == s[0]
    decreases |s|
  {
    if s == [] then []
    else if StartsWith(s, "**") then RemoveStars(s[2..])
    else [s[0]] + RemoveStars(s[1..])
  }

  /** A markdown heading's text is shown with no `**` left in it. */
  lemma {:induction false} RemoveStarsLeavesNoPair(s: string)
    ensures NoStarPair(RemoveStars(s))
    decreases |s|
  {
    if s == [] {
    } else if StartsWith(s, "**") {
      RemoveStarsLeavesNoPair(s[2..]);
    } else {
      var tail := RemoveStars(s[1..]);
      RemoveStarsLeavesNoPair(s[1..]);
      if s[0] == '*' && tail != [] {
        assert s[1] == tail[0] && s[1] != '*';
      }
      assert RemoveStars(s)[1..] == tail;
    }
  }

  /** Removing `**` from a text that has none leaves it as it is. */
  lemma {:induction false} RemoveStarsIdentity(s: string)
    requires NoStarPair(s)
    ensures RemoveStars(s) == s
    decreases |s|
  {
    if s != [] {
      if |s| >= 2 {
        assert !(s[0] == '*' && s[1] == '*');
        assert s[..2][0] == s[0] && s[..2][1] == s[1];
      }
      assert NoStarPair(s[1..]) by {
        forall k | 0 <= k < |s[1..]| - 1 ensures !(s[1..][k] == '*' && s[1..][k + 1] == '*') {
          assert s[1..][k] == s[k + 1] && s[1..][k + 1] == s[k + 2];
        }
      }
      RemoveStarsIdentity(s[1..]);
    }
  }

  // ---------------------------------------------------------------- blocks

  /** The block element one line becomes, with the raw regex captures. */
  datatype Block =
    | BracketHeading(title: string)          // 【…】
    | MarkdownHeading(title: string)         // #, ## or ### heading; `**` dropped when shown
    | Bullet(content: string)                // ・, - or * item
    | Numbered(number: string, content: string)
    | Blank                                  // an empty line: a spacer
    | Paragraph(content: string)

  /** The block for a trimmed line, the regexes tried in the route's order:
      【】 heading, markdown heading, bullet, numbered item, empty line, and a
      paragraph for anything else. */
  function ClassifyTrimmed(t: string): Block
  {
    var bracket := MatchBracketHeading(t);
    if bracket.Some? then BracketHeading(bracket.value)
    else
      var heading := MatchMarkdownHeading(t);
      if heading.Some? then MarkdownHeading(heading.value)
      else
        var bullet := MatchBullet(t);
        if bullet.Some? then Bullet(bullet.value)
        else
          var numbered := MatchNumbered(t);
          if numbered.Some? then Numbered(numbered.value.0, numbered.value.1)
          else if t == [] then Blank
          else Paragraph(t)
  }

  /** The precedence of the line regexes: each block kind is chosen exactly
      when its regex matches and none tried before it does, and carries that
      regex's captures; a line is a spacer exactly when it trims to nothing and
      matches none; any other line is a paragraph of its whole trimmed text. */
  lemma ClassifyPrecedence(t: string)
    ensures var b := ClassifyTrimmed(t);
      var bracket, heading, bullet, numbered :=
        MatchBracketHeading(t), MatchMarkdownHeading(t), MatchBullet(t), MatchNumbered(t);
      (b.BracketHeading? <==> bracket.Some?)
      && (b.MarkdownHeading? <==> bracket.None? && heading.Some?)
      && (b.Bullet? <==> bracket.None? && heading.None? && bullet.Some?)
      && (b.Numbered? <==> bracket.None? && heading.None? && bullet.None? && numbered.Some?)
      && (b.Blank? <==> t == [])
      && (b.Paragraph? <==>
          t != [] && bracket.None? && heading.None? && bullet.None? && numbered.None?)
      && (b.BracketHeading? ==> b.title == bracket.value)
      && (b.MarkdownHeading? ==> b.title == heading.value)
      && (b.Bullet? ==> b.content == bullet.value)
      && (b.Numbered? ==> b.number == numbered.value.0 && b.content == numbered.value.1)
      && (b.Paragraph? ==> b.content == t)
  {
    if t == [] {
      assert RunEnd(t, 0, IsHash) == 0 && RunEnd(t, 0, IsDigit) == 0;
    }
  }

  /** The block one line becomes: its trimmed text classified. */
  function Classify(line: string): Block {
    ClassifyTrimmed(Trim(line))
  }

  /** The blocks of the lines, one per line, in order. */
  function Blocks(lines: seq<string>): (bs: seq<Block>)
    ensures |bs| == |lines|
    ensures forall i :: 0 <= i < |lines| ==> bs[i] == Classify(lines[i])
  {
    seq(|lines|, i requires 0 <= i < |lines| => Classify(lines[i]))
  }

  /** A line whose text opens with bold, such as `**Note** …`, is taken for a
      `*` bullet: the bullet regex allows no space after the mark, so the
      item text is the trimmed line less its first `*`. */
  lemma BoldLeadLineIsBullet(line: string, x: string)
    requires Trim(line) == "**" + x && NoLineTerminator(x)
    ensures Classify(line) == Bullet("*" + x)
  {
    var t := "**" + x;
    assert t[0] == '*' && t[1] == '*';
    assert MatchBracketHeading(t).None?;
    RunEndAt(t, 0, IsHash, 0);
    assert MatchMarkdownHeading(t).None?;
    RunEndAt(t, 1, IsWhitespace, 1);
    assert t[1..] == "*" + x;
    assert NoLineTerminator(t[1..]) by {
      forall j | 0 <= j < |t[1..]| ensures !IsLineTerminator(t[1..][j]) {
        if j > 0 { assert t[1..][j] == x[j - 1]; }
      }
    }
    assert MatchBullet(t) == Some("*" + x);
  }

  // ---------------------------------------------------------------- layout

  /** The output as a sequence of pieces: list tags and block elements. */
  datatype Piece = OpenList | CloseList | Element(block: Block)

  /** Whether the last block is a bullet: the route's `inList` flag. */
  predicate EndsInBullet(bs: seq<Block>) {
    bs != [] && bs[|bs| - 1].Bullet?
  }

  /** The list tag written before a block: a bullet opens a list unless one
      is open; any other block closes an open list. */
  function Tag(inList: bool, b: Block): seq<Piece> {
    if b.Bullet? then (if inList then [] else [OpenList])
    else (if inList then [CloseList] else [])
  }

  /** The pieces the loop has produced after the given blocks. */
  function Pieces(bs: seq<Block>): seq<Piece> {
    if bs == [] then []
    else
      var init := bs[..|bs| - 1];
      var b := bs[|bs| - 1];
      Pieces(init) + Tag(EndsInBullet(init), b) + [Element(b)]
  }

  /** The whole output: the pieces, and a final close if a list is still open. */
  function Layout(bs: seq<Block>): seq<Piece> {
    Pieces(bs) + (if EndsInBullet(bs) then [CloseList] else [])
  }

  /** How a piece changes the list nesting. */
  function Weight(p: Piece): int {
    match p
    case OpenList => 1
    case CloseList => -1
    case Element(_) => 0
  }

  /** The list nesting after the pieces: opens minus closes. */
  function Depth(ps: seq<Piece>): int {
    if ps == [] then 0 else Depth(ps[..|ps| - 1]) + Weight(ps[|ps| - 1])
  }

  /** Lists never nest and are never closed before they are opened. */
  predicate Balanced(ps: seq<Piece>) {
    forall k :: 0 <= k <= |ps| ==> 0 <= Depth(ps[..k]) <= 1
  }

  /** The blocks of the element pieces, in order. */
  function Elements(ps: seq<Piece>): seq<Block> {
    if ps == [] then []
    else Elements(ps[..|ps| - 1]) + (if ps[|ps| - 1].Element? then [ps[|ps| - 1].block] else [])
  }

  /** The number of list openings. */
  function Opens(ps: seq<Piece>): nat {
    if ps == [] then 0 else Opens(ps[..|ps| - 1]) + (if ps[|ps| - 1] == OpenList then 1 else 0)
  }

  /** The number of runs of consecutive bullets. */
  function BulletRuns(bs: seq<Block>): nat {
    if bs == [] then 0
    else
      var init := bs[..|bs| - 1];
      BulletRuns(init) + (if bs[|bs| - 1].Bullet? && !EndsInBullet(init) then 1 else 0)
  }

  /** One more piece. */
  lemma PieceSnoc(a: seq<Piece>, p: Piece)
    ensures Depth(a + [p]) == Depth(a) + Weight(p)
    ensures Elements(a + [p]) == Elements(a) + (if p.Element? then [p.block] else [])
    ensures Opens(a + [p]) == Opens(a) + (if p == OpenList then 1 else 0)
    ensures Render(a + [p]) == Render(a) + RenderPiece(p)
  {
    assert (a + [p])[..|a|] == a;
  }

  /** One more block. */
  lemma PiecesSnoc(bs: seq<Block>, b: Block)
    ensures Pieces(bs + [b]) == Pieces(bs) + Tag(EndsInBullet(bs), b) + [Element(b)]
    ensures EndsInBullet(bs + [b]) == b.Bullet?
    ensures BulletRuns(bs + [b]) == BulletRuns(bs) + (if b.Bullet? && !EndsInBullet(bs) then 1 else 0)
  {
    assert (bs + [b])[..|bs|] == bs;
  }

  /** What the list tag before a block does to the output. */
  lemma TagSnoc(p: seq<Piece>, inList: bool, b: Block)
    ensures var a := p + Tag(inList, b);
      Depth(a) == Depth(p) + (if b.Bullet? && !inList then 1 else if !b.Bullet? && inList then -1 else 0)
      && Elements(a) == Elements(p)
      && Opens(a) == Opens(p) + (if b.Bullet? && !inList then 1 else 0)
      && Render(a) == Render(p) + Gap(inList, b)
  {
    var tag := Tag(inList, b);
    if tag == [] {
      assert p + tag == p;
    } else {
      assert tag == [tag[0]];
      PieceSnoc(p, tag[0]);
    }
  }

  /** Every block so far has its element, in order. */
  lemma {:induction false} PiecesElements(bs: seq<Block>)
    ensures Elements(Pieces(bs)) == bs
    decreases |bs|
  {
    if bs != [] {
      var init, b := bs[..|bs| - 1], bs[|bs| - 1];
      assert init + [b] == bs;
      PiecesSnoc(init, b);
      PiecesElements(init);
      TagSnoc(Pieces(init), EndsInBullet(init), b);
      PieceSnoc(Pieces(init) + Tag(EndsInBullet(init), b), Element(b));
    }
  }

  /** A piece that keeps the nesting within 0..1 keeps the tags balanced. */
  lemma BalancedSnoc(a: seq<Piece>, p: Piece)
    requires Balanced(a) && 0 <= Depth(a) + Weight(p) <= 1
    ensures Balanced(a + [p]) && Depth(a + [p]) == Depth(a) + Weight(p)
  {
    PieceSnoc(a, p);
    forall k | 0 <= k <= |a + [p]| ensures 0 <= Depth((a + [p])[..k]) <= 1 {
      if k <= |a| {
        assert (a + [p])[..k] == a[..k];
      } else {
        assert (a + [p])[..k] == a + [p];
      }
    }
  }

  /** The loop's `inList` invariant: the list tags so far are balanced, and
      exactly one list is open when the last block was a bullet. */
  lemma {:induction false} PiecesDepth(bs: seq<Block>)
    ensures Balanced(Pieces(bs))
    ensures Depth(Pieces(bs)) == if EndsInBullet(bs) then 1 else 0
    decreases |bs|
  {
    if bs == [] {
      var empty: seq<Piece> := [];
      assert empty[..0] == empty;
    } else {
      var init, b := bs[..|bs| - 1], bs[|bs| - 1];
      assert init + [b] == bs;
      PiecesSnoc(init, b);
      PiecesDepth(init);
      var p := Pieces(init);
      var tag := Tag(EndsInBullet(init), b);
      if tag == [] {
        assert p + tag == p;
      } else {
        assert p + tag == p + [tag[0]];
        BalancedSnoc(p, tag[0]);
      }
      BalancedSnoc(p + tag, Element(b));
    }
  }

  /** Consecutive bullets share one list: a list is opened once per run of
      bullets. */
  lemma {:induction false} PiecesOpens(bs: seq<Block>)
    ensures Opens(Pieces(bs)) == BulletRuns(bs)
    decreases |bs|
  {
    if bs != [] {
      var init, b := bs[..|bs| - 1], bs[|bs| - 1];
      assert init + [b] == bs;
      PiecesSnoc(init, b);
      PiecesOpens(init);
      TagSnoc(Pieces(init), EndsInBullet(init), b);
      PieceSnoc(Pieces(init) + Tag(EndsInBullet(init), b), Element(b));
    }
  }

  /** The layout is balanced and ends with no list open, holds exactly one
      element per line in line order, and opens one list per run of
      consecutive bullets. */
  lemma LayoutShape(bs: seq<Block>)
    ensures Balanced(Layout(bs)) && Depth(Layout(bs)) == 0
    ensures Elements(Layout(bs)) == bs
    ensures Opens(Layout(bs)) == BulletRuns(bs)
  {
    var p := Pieces(bs);
    PiecesElements(bs);
    PiecesDepth(bs);
    PiecesOpens(bs);
    if EndsInBullet(bs) {
      BalancedSnoc(p, CloseList);
      PieceSnoc(p, CloseList);
    } else {
      assert Layout(bs) == p;
    }
  }

  /** Bullets are exactly the elements shown inside a list: an element is a
      bullet if and only if a list is open where it stands. */
  lemma {:induction false} BulletsInsideLists(bs: seq<Block>, k: nat)
    requires k < |Pieces(bs)| && Pieces(bs)[k].Element?
    ensures Pieces(bs)[k].block.Bullet? <==> Depth(Pieces(bs)[..k]) == 1
    decreases |bs|
  {
    var init, b := bs[..|bs| - 1], bs[|bs| - 1];
    var p := Pieces(init);
    var a := p + Tag(EndsInBullet(init), b);
    assert Pieces(bs) == a + [Element(b)];
    if k < |p| {
      assert Pieces(bs)[..k] == p[..k];
      BulletsInsideLists(init, k);
    } else {
      assert k == |a|;
      assert Pieces(bs)[..k] == a;
      PiecesDepth(init);
      TagSnoc(p, EndsInBullet(init), b);
    }
  }

  // ---------------------------------------------------------------- rendering

  function Heading(title: string): string {
    HeadingOpen + title + HeadingClose
  }

  /** The markup of one block; the 【】 title is shown as captured, the
      markdown title with `**` removed, item and paragraph text with `**…**`
      in bold, and the number followed by an ASCII `.` whichever dot it had. */
  function RenderBlock(b: Block): string {
    match b
    case BracketHeading(title) => Heading(title)
    case MarkdownHeading(title) => Heading(RemoveStars(title))
    case Bullet(content) => ItemOpen + RenderInline(Emphasize(content)) + ItemClose
    case Numbered(number, content) =>
      NumberOpen + number + NumberClose + RenderInline(Emphasize(content)) + NumberedClose
    case Blank => SpacerDiv
    case Paragraph(content) => ParagraphOpen + RenderInline(Emphasize(content)) + ParagraphClose
  }

  function RenderPiece(p: Piece): string {
    match p
    case OpenList => ListOpen
    case CloseList => ListClose
    case Element(b) => RenderBlock(b)
  }

  function Render(ps: seq<Piece>): string {
    if ps == [] then "" else Render(ps[..|ps| - 1]) + RenderPiece(ps[|ps| - 1])
  }

  /** The markup of the list tag before a block. */
  function Gap(inList: bool, b: Block): string {
    if b.Bullet? then (if inList then "" else ListOpen)
    else (if inList then ListClose else "")
  }

  /** One line's worth of output: the list tag its block calls for, if any,
      then the block's element. */
  lemma RenderStep(bs: seq<Block>, b: Block)
    ensures Render(Pieces(bs + [b])) == Render(Pieces(bs)) + Gap(EndsInBullet(bs), b) + RenderBlock(b)
  {
    PiecesSnoc(bs, b);
    TagSnoc(Pieces(bs), EndsInBullet(bs), b);
    PieceSnoc(Pieces(bs) + Tag(EndsInBullet(bs), b), Element(b));
  }

  /** The loop's step: one more line adds its block's tag and element. */
  lemma LineStep(lines: seq<string>, i: nat)
    requires i < |lines|
    ensures var done, b := Blocks(lines[..i]), Classify(lines[i]);
      var next := Blocks(lines[..i + 1]);
      EndsInBullet(next) == b.Bullet?
      && (Depth(Pieces(next)) == 1 <==> b.Bullet?)
      && Render(Pieces(next)) == Render(Pieces(done)) + Gap(EndsInBullet(done), b) + RenderBlock(b)
  {
    var done, b := Blocks(lines[..i]), Classify(lines[i]);
    assert lines[..i + 1] == lines[..i] + [lines[i]];
    assert Blocks(lines[..i + 1]) == done + [b];
    RenderStep(done, b);
    PiecesSnoc(done, b);
    PiecesDepth(done + [b]);
  }

  /** `if (inList) { html += "</ul>"; inList = false; }` */
  method CloseOpenList(html0: string, inList0: bool) returns (html: string, inList: bool)
    ensures !inList && html == html0 + (if inList0 then ListClose else "")
  {
    html, inList := html0, inList0;
    if inList {
      html := html + ListClose;
      inList := false;
    }
  }

  /** `if (!inList) { html += "<ul …>"; inList = true; }` */
  method OpenListUnlessOpen(html0: string, inList0: bool) returns (html: string, inList: bool)
    ensures inList && html == html0 + (if inList0 then "" else ListOpen)
  {
    html, inList := html0, inList0;
    if !inList {
      html := html + ListOpen;
      inList := true;
    }
  }

  /** One pass of the loop body after the trim: the trimmed line is tried
      against the regexes in order, and the first that matches closes or
      opens the list as its block requires and appends the block's element.
      The flag then says whether this line was a bullet. */
  method FormatLine(html0: string, inList0: bool, trimmed: string) returns (html: string, inList: bool)
    ensures inList == ClassifyTrimmed(trimmed).Bullet?
    ensures html == html0 + Gap(inList0, ClassifyTrimmed(trimmed)) + RenderBlock(ClassifyTrimmed(trimmed))
  {
    ghost var b := ClassifyTrimmed(trimmed);
    var bracket := MatchBracketHeading(trimmed);
    if bracket.Some? {
      assert b == BracketHeading(bracket.value);
      html, inList := CloseOpenList(html0, inList0);
      html := html + Heading(bracket.value);
      return;
    }
    var heading := MatchMarkdownHeading(trimmed);
    if heading.Some? {
      assert b == MarkdownHeading(heading.value);
      html, inList := CloseOpenList(html0, inList0);
      var headingText := RemoveStars(heading.value);
      html := html + Heading(headingText);
      return;
    }
    var bullet := MatchBullet(trimmed);
    if bullet.Some? {
      assert b == Bullet(bullet.value);
      html, inList := OpenListUnlessOpen(html0, inList0);
      var content := RenderInline(Emphasize(bullet.value));
      html := html + (ItemOpen + content + ItemClose);
      return;
    }
    var numbered := MatchNumbered(trimmed);
    if numbered.Some? {
      assert b == Numbered(numbered.value.0, numbered.value.1);
      html, inList := CloseOpenList(html0, inList0);
      var content := RenderInline(Emphasize(numbered.value.1));
      html := html + (NumberOpen + numbered.value.0 + NumberClose + content + NumberedClose);
      return;
    }
    if trimmed == [] {
      assert b == Blank;
      html, inList := CloseOpenList(html0, inList0);
      html := html + SpacerDiv;
      return;
    }
    assert b == Paragraph(trimmed);
    html, inList := CloseOpenList(html0, inList0);
    var content := RenderInline(Emphasize(trimmed));
    html := html + (ParagraphOpen + content + ParagraphClose);
  }

  /** The loop of `formatAnswerToHtml` over the lines, with its `inList`
      flag, and the final close of a list left open. The result is the
      rendered layout of the lines' blocks; after each line `inList` is true
      exactly when the output so far holds one list left open. */
  method FormatLines(lines: seq<string>) returns (html: string)
    ensures html == Render(Layout(Blocks(lines)))
  {
    html := "";
    var inList := false;
    for i := 0 to |lines|
      invariant inList == EndsInBullet(Blocks(lines[..i]))
      invariant inList <==> Depth(Pieces(Blocks(lines[..i]))) == 1
      invariant html == Render(Pieces(Blocks(lines[..i])))
    {
      var trimmed := Trim(lines[i]);
      html, inList := FormatLine(html, inList, trimmed);
      LineStep(lines, i);
    }
    assert lines[..|lines|] == lines;
    ghost var blocks := Blocks(lines);
    if inList {
      html := html + ListClose;
      assert Layout(blocks) == Pieces(blocks) + [CloseList];
      PieceSnoc(Pieces(blocks), CloseList);
    } else {
      assert Layout(blocks) == Pieces(blocks) + [];
      assert Pieces(blocks) + [] == Pieces(blocks);
    }
  }

  /** `formatAnswerToHtml`: the whole answer escaped, split on "\n", and laid
      out line by line. */
  method FormatAnswerToHtml(text: string) returns (html: string)
    ensures html == Render(Layout(Blocks(Split(EscapeHtml(text)))))
  {
    var escaped := EscapeHtml(text);
    var lines := Split(escaped);
    html := FormatLines(lines);
  }

  // ---------------------------------------------------------------- escaping before markup

  /** No character that could open or close a tag or end an attribute value. */
  predicate Clean(s: string) {
    '<' !in s && '>' !in s && '"' !in s
  }

  predicate CleanBlock(b: Block) {
    match b
    case BracketHeading(title) => Clean(title)
    case MarkdownHeading(title) => Clean(title)
    case Bullet(content) => Clean(content)
    case Numbered(number, content) => Clean(number) && Clean(content)
    case Blank => true
    case Paragraph(content) => Clean(content)
  }

  lemma CleanInfix(s: string, i: nat, j: nat)
    requires Clean(s) && i <= j <= |s|
    ensures Clean(s[i..j])
  {
    forall c | c in s[i..j] ensures c in s {
      var k :| 0 <= k < |s[i..j]| && s[i..j][k] == c;
      assert s[i + k] == c;
    }
  }

  /** Every line of a clean text is clean. */
  lemma {:induction false} SplitClean(s: string)
    requires Clean(s)
    ensures forall k :: 0 <= k < |Split(s)| ==> Clean(Split(s)[k])
    decreases |s|
  {
    if NL in s {
      var i := IndexOf(s, NL);
      CleanInfix(s, 0, i);
      CleanInfix(s, i + 1, |s|);
      SplitClean(s[i + 1..]);
      SplitAt(s, i);
    }
  }

  /** The captures the matchers take out of a clean trimmed line are clean. */
  lemma ClassifyTrimmedClean(t: string)
    requires Clean(t)
    ensures CleanBlock(ClassifyTrimmed(t))
  {
    if MatchBracketHeading(t).Some? {
      CleanInfix(t, 1, |t| - 1);
    } else if MatchMarkdownHeading(t).Some? {
      CleanInfix(t, RunEnd(t, RunEnd(t, 0, IsHash), IsWhitespace), |t|);
    } else if MatchBullet(t).Some? {
      CleanInfix(t, RunEnd(t, 1, IsWhitespace), |t|);
    } else if MatchNumbered(t).Some? {
      var d := RunEnd(t, 0, IsDigit);
      CleanInfix(t, 0, d);
      CleanInfix(t, RunEnd(t, d + 1, IsWhitespace), |t|);
    }
  }

  /** A clean line trims to a clean text, and so classifies to a clean block. */
  lemma ClassifyClean(line: string)
    requires Clean(line)
    ensures CleanBlock(Classify(line))
  {
    TrimIsInfix(line);
    var a := |line| - |TrimStart(line)|;
    CleanInfix(line, a, a + |Trim(line)|);
    ClassifyTrimmedClean(Trim(line));
  }

  /** The bold replace and the `**` removal only regroup characters of their
      text, so a clean text stays clean inside the markup. */
  lemma {:induction false} EmphasizeClean(s: string)
    requires Clean(s)
    ensures forall i :: 0 <= i < |Emphasize(s)| ==> Clean(Emphasize(s)[i].s)
    ensures Clean(RemoveStars(s))
    decreases |s|
  {
    if s != [] {
      var close := if StartsWith(s, "**") then FindStars(s, 3) else None;
      if close.Some? && NoLineTerminator(s[2..close.value]) {
        var q := close.value;
        CleanInfix(s, 2, q);
        CleanInfix(s, q + 2, |s|);
        EmphasizeClean(s[q + 2..]);
      } else {
        CleanInfix(s, 0, 1);
        CleanInfix(s, 1, |s|);
        EmphasizeClean(s[1..]);
      }
    }
  }

  /** Every text `RenderBlock` places between its tags is clean: the titles as
      shown, the number, and each plain and bold piece of item and paragraph
      text. */
  predicate InsertedClean(b: Block) {
    match b
    case BracketHeading(title) => Clean(title)
    case MarkdownHeading(title) => Clean(RemoveStars(title))
    case Bullet(content) => forall i :: 0 <= i < |Emphasize(content)| ==> Clean(Emphasize(content)[i].s)
    case Numbered(number, content) =>
      Clean(number) && forall i :: 0 <= i < |Emphasize(content)| ==> Clean(Emphasize(content)[i].s)
    case Blank => true
    case Paragraph(content) => forall i :: 0 <= i < |Emphasize(content)| ==> Clean(Emphasize(content)[i].s)
  }

  /** A block with clean captures inserts only clean text into the markup. */
  lemma CleanBlockInserted(b: Block)
    requires CleanBlock(b)
    ensures InsertedClean(b)
  {
    match b
    case BracketHeading(title) =>
    case MarkdownHeading(title) => EmphasizeClean(title);
    case Bullet(content) => EmphasizeClean(content);
    case Numbered(number, content) => EmphasizeClean(content);
    case Blank =>
    case Paragraph(content) => EmphasizeClean(content);
  }

  /** The route escapes the whole answer before adding markup: every block of
      the escaped answer has clean captures, and every text the markup shows,
      bold pieces and heading titles included, is free of `<`, `>` and `"`,
      whatever the answer held. */
  lemma EscapedBlocksClean(text: string)
    ensures forall b :: b in Blocks(Split(EscapeHtml(text))) ==> CleanBlock(b) && InsertedClean(b)
  {
    var escaped := EscapeHtml(text);
    EscapedHasNoMarkup(text);
    SplitClean(escaped);
    var lines := Split(escaped);
    forall b | b in Blocks(lines) ensures CleanBlock(b) && InsertedClean(b) {
      var i :| 0 <= i < |lines| && Blocks(lines)[i] == b;
      ClassifyClean(lines[i]);
      CleanBlockInserted(b);
    }
  }
}
