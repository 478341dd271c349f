/** `remove_required_modules`: the entries of the mission's
    `["requiredModules"]` table are dropped, and its header, its opening brace
    line and its closing line are kept.

    The block the pattern matches is described by four positions: where the
    header starts, where the line of the opening brace ends, where the closing
    line starts and where it ends. Between the second and the third lie the one
    or more lines the replacement drops. */
module Misc {
  import opened Wrappers
  import opened Text

  const Header: string := "[\"requiredModules\"] = \n"
  const Footer: string := "}, -- end of [\"requiredModules\"]\n"

  datatype Block = Block(start: nat, open: nat, close: nat, end: nat)

  /** The text t stands at position i of s. */
  predicate TextAt(s: string, i: nat, t: string) {
    i + |t| <= |s| && s[i..i + |t|] == t
  }

  // ----- What a match looks like -----

  /** s[h..b] is `\s+\{\n`: whitespace, then an opening brace and a newline. */
  predicate OpenShape(s: string, h: nat, b: nat) {
    var e := b - 2;
    h < e && b <= |s| && Run(s, h, e, Space) && s[e] == '{' && s[e + 1] == '\n'
  }

  /** s[p..c] is `(?:.+\n)+`: one or more lines, none of them empty. */
  predicate Lines(s: string, p: nat, c: nat)
    requires p <= |s|
    decreases |s| - p
  {
    var e := RunEnd(s, p, NotNewline);
    p < e < |s| && (c == e + 1 || Lines(s, e + 1, c))
  }

  /** s[c..end] is `\s+\}, -- end of \["requiredModules"\]\n`. */
  predicate FooterShape(s: string, c: nat, end: nat) {
    var f := end - |Footer|;
    c < f && TextAt(s, f, Footer) && Run(s, c, f, Space)
  }

  predicate BlockShape(s: string, k: Block) {
    TextAt(s, k.start, Header) && OpenShape(s, k.start + |Header|, k.open)
    && Lines(s, k.open, k.close) && FooterShape(s, k.close, k.end)
  }

  // ----- The pieces of the matcher -----

  /** Where the closing line that starts at c ends, if it is one. */
  function FooterEnd(s: string, c: nat): Option<nat>
    requires c <= |s|
  {
    var f := RunEnd(s, c, Space);
    if c < f && TextAt(s, f, Footer) then Some(f + |Footer|) else None
  }

  lemma FooterEndShape(s: string, c: nat)
    requires c <= |s| && FooterEnd(s, c).Some?
    ensures FooterShape(s, c, FooterEnd(s, c).value)
  {
    RunEndIsRun(s, c, Space);
  }

  /** A closing line starting at c has one end, the one FooterEnd finds. */
  lemma FooterEndFound(s: string, c: nat, end: nat)
    requires FooterShape(s, c, end)
    ensures c <= |s| && FooterEnd(s, c) == Some(end)
  {
    var f := end - |Footer|;
    assert Footer[0] == '}';
    assert s[f] == s[f..f + |Footer|][0];
    RunEndExact(s, c, f, Space);
  }

  /** The opening brace line after the header has one end. */
  lemma OpenUnique(s: string, h: nat, b: nat, b': nat)
    requires OpenShape(s, h, b) && OpenShape(s, h, b')
    ensures b == b'
  {
    OpenEndFound(s, h, b);
    OpenEndFound(s, h, b');
  }

  /** The greedy `(?:.+\n)+`: of the ends of the lines from p on at which a
      closing line starts, the last one. */
  function LastClose(s: string, p: nat): (r: Option<nat>)
    requires p <= |s|
    ensures r.Some? ==> p < r.value <= |s|
    decreases |s| - p
  {
    var e := RunEnd(s, p, NotNewline);
    if !(p < e < |s|) then None
    else
      match LastClose(s, e + 1)
      case Some(c) => Some(c)
      case None => if FooterEnd(s, e + 1).Some? then Some(e + 1) else None
  }

  /** What LastClose finds is the end of lines from p on... */
  lemma {:induction false} LastCloseLines(s: string, p: nat)
    requires p <= |s| && LastClose(s, p).Some?
    ensures Lines(s, p, LastClose(s, p).value)
    decreases |s| - p
  {
    var e := RunEnd(s, p, NotNewline);
    var c := LastClose(s, p).value;
    assert p < e < |s|;
    if LastClose(s, e + 1).Some? {
      LastCloseLines(s, e + 1);
      assert Lines(s, e + 1, c);
    } else {
      assert c == e + 1;
    }
  }

  /** ... at which a closing line starts. */
  lemma {:induction false} LastCloseFooter(s: string, p: nat)
    requires p <= |s| && LastClose(s, p).Some?
    ensures FooterEnd(s, LastClose(s, p).value).Some?
    decreases |s| - p
  {
    var e := RunEnd(s, p, NotNewline);
    var c := LastClose(s, p).value;
    assert p < e < |s|;
    if LastClose(s, e + 1).Some? {
      LastCloseFooter(s, e + 1);
      assert c == LastClose(s, e + 1).value;
    } else {
      assert c == e + 1;
    }
  }

  lemma LastCloseFound(s: string, p: nat)
    requires p <= |s| && LastClose(s, p).Some?
    ensures Lines(s, p, LastClose(s, p).value) && FooterEnd(s, LastClose(s, p).value).Some?
  {
    LastCloseLines(s, p);
    LastCloseFooter(s, p);
  }

  lemma {:induction false} LastCloseBest(s: string, p: nat, c: nat)
    requires p <= |s| && Lines(s, p, c) && c <= |s| && FooterEnd(s, c).Some?
    ensures LastClose(s, p).Some? && c <= LastClose(s, p).value
    decreases |s| - p
  {
    var e := RunEnd(s, p, NotNewline);
    if c != e + 1 {
      LastCloseBest(s, e + 1, c);
    }
  }

  /** The lines end inside the text. */
  lemma {:induction false} LinesInside(s: string, p: nat, c: nat)
    requires p <= |s| && Lines(s, p, c)
    ensures p + 2 <= c <= |s|
    decreases |s| - p
  {
    var e := RunEnd(s, p, NotNewline);
    if c != e + 1 {
      LinesInside(s, e + 1, c);
    }
  }

  /** Where the brace line that follows the header at h ends, if it is one:
      `\s+` takes the whole whitespace run, which a brace must end. */
  function OpenEnd(s: string, h: nat): Option<nat>
    requires h <= |s|
  {
    var e := RunEnd(s, h, Space);
    if h < e && e + 1 < |s| && s[e] == '{' && s[e + 1] == '\n' then Some(e + 2) else None
  }

  lemma OpenEndShape(s: string, h: nat)
    requires h <= |s| && OpenEnd(s, h).Some?
    ensures OpenShape(s, h, OpenEnd(s, h).value)
  {
    RunEndIsRun(s, h, Space);
  }

  lemma OpenEndFound(s: string, h: nat, b: nat)
    requires OpenShape(s, h, b)
    ensures h <= |s| && OpenEnd(s, h) == Some(b)
  {
    RunEndExact(s, h, b - 2, Space);
  }

  /** The match at start i: the header, the brace line, and the last closing
      line that the lines reach. */
  function MatchBlockAt(s: string, i: nat): Option<Block>
    requires i <= |s|
  {
    if !TextAt(s, i, Header) then None
    else
      match OpenEnd(s, i + |Header|)
      case None => None
      case Some(b) =>
        match LastClose(s, b)
        case None => None
        case Some(c) => if FooterEnd(s, c).Some? then Some(Block(i, b, c, FooterEnd(s, c).value)) else None
  }

  lemma BlockAtShape(s: string, i: nat)
    requires i <= |s| && MatchBlockAt(s, i).Some?
    ensures MatchBlockAt(s, i).value.start == i && BlockShape(s, MatchBlockAt(s, i).value)
  {
    var h := i + |Header|;
    var b := OpenEnd(s, h).value;
    var c := LastClose(s, b).value;
    assert Lines(s, b, c) && FooterEnd(s, c).Some? by {
      LastCloseFound(s, b);
    }
    var end := FooterEnd(s, c).value;
    assert MatchBlockAt(s, i) == Some(Block(i, b, c, end));
    assert OpenShape(s, h, b) by {
      OpenEndShape(s, h);
    }
    assert FooterShape(s, c, end) by {
      FooterEndShape(s, c);
    }
  }

  /** Every block at i closes no later than the one the matcher reports. */
  lemma BlockAtBest(s: string, i: nat, k: Block)
    requires i <= |s| && BlockShape(s, k) && k.start == i
    ensures MatchBlockAt(s, i).Some? && k.close <= MatchBlockAt(s, i).value.close
  {
    var h := i + |Header|;
    var b := k.open;
    assert OpenEnd(s, h) == Some(b) by {
      OpenEndFound(s, h, b);
    }
    assert LastClose(s, b).Some? && k.close <= LastClose(s, b).value by {
      LinesInside(s, b, k.close);
      FooterEndFound(s, k.close, k.end);
      LastCloseBest(s, b, k.close);
    }
    assert FooterEnd(s, LastClose(s, b).value).Some? by {
      LastCloseFound(s, b);
    }
  }

  /** The block the regex engine reports starting at or after from: the
      leftmost one, and of those at its start the one closing last. */
  function FindBlock(s: string, from: nat): (r: Option<Block>)
    requires from <= |s|
    ensures r.Some? ==> from <= r.value.start && BlockShape(s, r.value)
    ensures r.Some? ==> forall k {:trigger BlockShape(s, k)} :: BlockShape(s, k) && k.start == r.value.start ==> k.close <= r.value.close
    ensures forall k {:trigger BlockShape(s, k)} :: BlockShape(s, k) && from <= k.start ==> r.Some? && r.value.start <= k.start
    decreases |s| - from
  {
    AllBlocksAt(s, from);
    match MatchBlockAt(s, from)
    case Some(k) =>
      BlockAtShape(s, from);
      Some(k)
    case None =>
      if from == |s| then
        NoBlockAtEnd(s);
        None
      else FindBlock(s, from + 1)
  }

  lemma AllBlocksAt(s: string, i: nat)
    requires i <= |s|
    ensures forall k {:trigger BlockShape(s, k)} :: BlockShape(s, k) && k.start == i ==>
      MatchBlockAt(s, i).Some? && k.close <= MatchBlockAt(s, i).value.close
  {
    forall k {:trigger BlockShape(s, k)} | BlockShape(s, k) && k.start == i
      ensures MatchBlockAt(s, i).Some? && k.close <= MatchBlockAt(s, i).value.close
    {
      BlockAtBest(s, i, k);
    }
  }

  /** A block ends inside the text and spans at least 62 characters: the
      header, one whitespace, the brace line, one line of one character, one
      whitespace and the closing text. */
  lemma BlockLength(s: string, k: Block)
    requires BlockShape(s, k)
    ensures k.start + 62 <= k.end <= |s|
  {
    LinesInside(s, k.open, k.close);
  }

  lemma NoBlockAtEnd(s: string)
    ensures forall k {:trigger BlockShape(s, k)} :: BlockShape(s, k) ==> k.start < |s|
  {
    forall k {:trigger BlockShape(s, k)} | BlockShape(s, k) ensures k.start < |s| {
      BlockLength(s, k);
    }
  }

  ghost predicate HasBlock(s: string) {
    exists k :: BlockShape(s, k)
  }

  /** k is the block the regex engine reports: leftmost, then closing last. */
  ghost predicate IsFirstBlock(s: string, k: Block) {
    BlockShape(s, k)
    && (forall j {:trigger BlockShape(s, j)} :: BlockShape(s, j) ==> k.start <= j.start)
    && (forall j {:trigger BlockShape(s, j)} :: BlockShape(s, j) && j.start == k.start ==> j.close <= k.close)
  }

  /** The reported block is unique. */
  lemma FirstBlockUnique(s: string, k: Block, j: Block)
    requires IsFirstBlock(s, k) && IsFirstBlock(s, j)
    ensures k == j
  {
    OpenUnique(s, k.start + |Header|, k.open, j.open);
    FooterEndFound(s, k.close, k.end);
    FooterEndFound(s, j.close, j.end);
  }

  lemma FindBlockSpec(s: string)
    ensures FindBlock(s, 0).Some? <==> HasBlock(s)
    ensures FindBlock(s, 0).Some? ==> IsFirstBlock(s, FindBlock(s, 0).value)
  {
  }

  /** `remove_required_modules`. Outside dry run a mission without the block is
      returned as it is; otherwise the replacement keeps everything but the
      lines between the brace line and the closing line of the first block. */
  function RemoveRequiredModules(mission: string, dryRun: bool): (r: string)
    ensures !HasBlock(mission) ==> r == mission
    ensures forall k {:trigger IsFirstBlock(mission, k)} :: IsFirstBlock(mission, k) ==>
      r == mission[..k.open] + mission[k.close..]
  {
    FindBlockSpec(mission);
    FirstBlocksAre(mission);
    if !dryRun && FindBlock(mission, 0).None? then mission
    else
      match FindBlock(mission, 0)
      case None => mission
      case Some(k) => mission[..k.open] + mission[k.close..]
  }

  lemma FirstBlocksAre(s: string)
    ensures FindBlock(s, 0).Some? ==> forall k {:trigger IsFirstBlock(s, k)} :: IsFirstBlock(s, k) ==> k == FindBlock(s, 0).value
  {
    FindBlockSpec(s);
    if FindBlock(s, 0).Some? {
      forall k {:trigger IsFirstBlock(s, k)} | IsFirstBlock(s, k) ensures k == FindBlock(s, 0).value {
        FirstBlockUnique(s, k, FindBlock(s, 0).value);
      }
    }
  }

  /** Cutting s[a..b] out leaves the text before a as it was. */
  lemma CutBefore(s: string, a: nat, b: nat, i: nat, j: nat)
    requires i <= j <= a <= b <= |s|
    ensures (s[..a] + s[b..])[i..j] == s[i..j]
  {
    var r := s[..a] + s[b..];
    forall t | 0 <= t < j - i ensures r[i..j][t] == s[i..j][t] {
      assert r[i + t] == s[i + t];
    }
  }

  /** Cutting s[a..b] out moves the text after b to a. */
  lemma CutAfter(s: string, a: nat, b: nat, i: nat, j: nat)
    requires a <= b <= |s| && a <= i <= j <= |s| - (b - a)
    ensures (s[..a] + s[b..])[i..j] == s[i - a + b..j - a + b]
  {
    var r := s[..a] + s[b..];
    forall t | 0 <= t < j - i ensures r[i..j][t] == s[i - a + b..j - a + b][t] {
      assert r[i + t] == s[i + t - a + b];
    }
  }

  /** What RemoveRequiredModules gives for a block k: the text up to the end of
      the brace line (the header and the brace line included) and from the
      start of the closing line on, with the lines between them dropped. */
  lemma RemovalKeeps(s: string, k: Block)
    requires BlockShape(s, k)
    ensures var r := s[..k.open] + s[k.close..];
      |r| == |s| - (k.close - k.open)
      && r[..k.open] == s[..k.open]
      && r[k.open..] == s[k.close..]
      && r[k.start..k.start + |Header|] == Header
      && r[k.open..k.open + (k.end - k.close)] == s[k.close..k.end]
  {
    var r := s[..k.open] + s[k.close..];
    LinesInside(s, k.open, k.close);
    assert r[..k.open] == s[..k.open] && r[k.open..] == s[k.close..];
    assert r[k.start..k.start + |Header|] == Header by {
      CutBefore(s, k.open, k.close, k.start, k.start + |Header|);
    }
    assert r[k.open..k.open + (k.end - k.close)] == s[k.close..k.end] by {
      CutAfter(s, k.open, k.close, k.open, k.open + (k.end - k.close));
    }
  }

  /** The file of a dry run is removed from in the same way. */
  lemma DryRunSame(s: string)
    ensures RemoveRequiredModules(s, true) == RemoveRequiredModules(s, false)
  {
  }

  // ----- An emptied table -----

  /** An emptied table at P in s: the header, n1 whitespace characters, the
      brace line, n2 whitespace characters that are not line breaks, and the
      closing text, with no line between the brace line and the closing line. */
  predicate EmptiedAt(s: string, P: nat, n1: nat, n2: nat) {
    var h := P + |Header|;
    var b := h + n1 + 2;
    b + n2 + |Footer| <= |s|
    && StartsAt(s, P, Header) && Run(s, h, h + n1, Space) && s[h + n1] == '{' && s[h + n1 + 1] == '\n'
    && Run(s, b, b + n2, Space) && Run(s, b, b + n2, NotNewline) && StartsAt(s, b + n2, Footer)
  }

  /** The end of the emptied table at P. */
  function EmptiedEnd(P: nat, n1: nat, n2: nat): nat {
    P + |Header| + n1 + 2 + n2 + |Footer|
  }

  /** The text of an emptied table with whitespace w1 before the brace and w2
      before the closing text is one, placed anywhere. */
  lemma EmptiedText(pre: string, w1: string, w2: string, post: string)
    requires AllIn(w1, Space) && AllIn(w2, Space) && '\n' !in w2
    ensures EmptiedAt(pre + (Header + w1 + "{\n" + w2 + Footer) + post, |pre|, |w1|, |w2|)
  {
  }

  /** The header holds `[` only at its start. */
  lemma HeaderBrackets()
    ensures forall t :: 0 < t < |Header| ==> Header[t] != '['
  {
  }

  /** The closing text holds `[` only at 13 and a line break only at its end. */
  lemma FooterChars()
    ensures forall t :: 0 <= t < |Footer| && t != 13 ==> Footer[t] != '['
    ensures forall t :: 0 <= t < |Footer| - 1 ==> Footer[t] != '\n'
    ensures Footer[32] == '\n'
  {
  }

  /** The only `[` in the table after its first character is the one of the
      closing text, which a line break follows 19 characters later. */
  lemma TableChars(s: string, P: nat, n1: nat, n2: nat)
    requires EmptiedAt(s, P, n1, n2)
    ensures var f := P + |Header| + n1 + 2 + n2;
      (forall j :: P < j < f + |Footer| && j != f + 13 ==> s[j] != '[') && s[f + 32] == '\n'
  {
    var h := P + |Header|;
    var b := h + n1 + 2;
    var f := b + n2;
    HeaderBrackets();
    FooterChars();
    forall j | P < j < f + |Footer| && j != f + 13 ensures s[j] != '[' {
      if j < h {
        assert s[P + (j - P)] == Header[j - P];
      } else if j < h + n1 {
        assert Space.Has(s[j]);
      } else if j < b {
        assert s[j] == '{' || s[j] == '\n';
      } else if j < f {
        assert Space.Has(s[j]);
      } else {
        assert s[f + (j - f)] == Footer[j - f];
      }
    }
    assert s[f + 32] == Footer[32];
  }

  /** A header that starts inside the table is the table's own. */
  lemma TableHeaderOnly(s: string, P: nat, n1: nat, n2: nat, i: nat)
    requires EmptiedAt(s, P, n1, n2) && TextAt(s, i, Header)
    requires P <= i < EmptiedEnd(P, n1, n2)
    ensures i == P
  {
    assert s[i] == '[' && s[i + 19] == ' ' by {
      assert s[i..i + |Header|][0] == Header[0];
      assert s[i..i + |Header|][19] == Header[19];
    }
    TableChars(s, P, n1, n2);
  }

  /** The brace line of the table ends where the empty line before the closing
      text starts; with no whitespace before the brace, `\s+` finds none. */
  lemma TableOpenEnd(s: string, P: nat, n1: nat, n2: nat)
    requires EmptiedAt(s, P, n1, n2)
    ensures OpenEnd(s, P + |Header|) == if n1 > 0 then Some(P + |Header| + n1 + 2) else None
  {
    RunEndExact(s, P + |Header|, P + |Header| + n1, Space);
  }

  /** The first line after the brace line runs to the end of the closing text. */
  lemma TableFirstLine(s: string, P: nat, n1: nat, n2: nat)
    requires EmptiedAt(s, P, n1, n2)
    ensures var b := P + |Header| + n1 + 2;
      RunEnd(s, b, NotNewline) == EmptiedEnd(P, n1, n2) - 1
  {
    var b := P + |Header| + n1 + 2;
    var f := b + n2;
    FooterChars();
    forall j | b <= j < f + 32 ensures NotNewline.Has(s[j]) {
      if j >= f {
        assert s[f + (j - f)] == Footer[j - f];
      }
    }
    assert s[f + 32] == Footer[32];
    RunEndExact(s, b, f + 32, NotNewline);
  }

  /** So the lines after the brace line close no earlier than the table's end. */
  lemma TableLines(s: string, P: nat, n1: nat, n2: nat, c: nat)
    requires EmptiedAt(s, P, n1, n2) && Lines(s, P + |Header| + n1 + 2, c)
    ensures c >= EmptiedEnd(P, n1, n2)
  {
    var q := EmptiedEnd(P, n1, n2);
    TableFirstLine(s, P, n1, n2);
    if c != q {
      LinesInside(s, q, c);
    }
  }

  /** A block at the table's header closes no earlier than the table's end. */
  lemma TableBlockCloses(s: string, P: nat, n1: nat, n2: nat, k: Block)
    requires EmptiedAt(s, P, n1, n2) && BlockShape(s, k) && k.start == P
    ensures k.close >= EmptiedEnd(P, n1, n2)
  {
    TableOpenEnd(s, P, n1, n2);
    OpenEndFound(s, P + |Header|, k.open);
    TableLines(s, P, n1, n2, k.close);
  }

  /** When no header starts before the table, every block closes after it. */
  lemma BlocksAfterTable(s: string, P: nat, n1: nat, n2: nat)
    requires EmptiedAt(s, P, n1, n2)
    requires forall i: nat :: i < P ==> !TextAt(s, i, Header)
    ensures forall k {:trigger BlockShape(s, k)} :: BlockShape(s, k) ==> k.end - |Footer| >= EmptiedEnd(P, n1, n2)
  {
    forall k | BlockShape(s, k) ensures k.end - |Footer| >= EmptiedEnd(P, n1, n2) {
      LinesInside(s, k.open, k.close);
      if k.start < EmptiedEnd(P, n1, n2) {
        TableHeaderOnly(s, P, n1, n2, k.start);
        TableBlockCloses(s, P, n1, n2, k);
      }
    }
  }

  /** A table whose entries are already gone has no line between its brace
      line and its closing line, and `(?:.+\n)+` needs one, so it does not
      match and the mission is left as it is: for any whitespace, when no
      header starts before the table and no closing text after it. */
  lemma EmptiedBlockStays(s: string, P: nat, n1: nat, n2: nat, dryRun: bool)
    requires EmptiedAt(s, P, n1, n2)
    requires forall i: nat :: i < P ==> !TextAt(s, i, Header)
    requires forall f: nat :: EmptiedEnd(P, n1, n2) <= f ==> !TextAt(s, f, Footer)
    ensures !HasBlock(s) && RemoveRequiredModules(s, dryRun) == s
  {
    BlocksAfterTable(s, P, n1, n2);
  }

  /** A header that starts before another one ends before it, because a
      header holds `[` only at its start. */
  lemma HeaderNotAcross(s: string, P: nat, i: nat)
    requires StartsAt(s, P, Header) && TextAt(s, i, Header) && i < P
    ensures i + |Header| <= P
  {
    if P < i + |Header| {
      assert s[P + 0] == Header[0] == '[';
      assert s[P] == s[i..i + |Header|][P - i];
      HeaderBrackets();
    }
  }

  /** A header that starts in the text before a table lies in that text. */
  lemma HeaderInPrefix(pre: string, rest: string, i: nat)
    requires StartsAt(pre + rest, |pre|, Header) && TextAt(pre + rest, i, Header) && i < |pre|
    ensures TextAt(pre, i, Header)
  {
    HeaderNotAcross(pre + rest, |pre|, i);
    assert (pre + rest)[i..i + |Header|] == pre[i..i + |Header|];
  }

  /** A closing text that starts after the table lies in the text after it. */
  lemma FooterInSuffix(m: string, post: string, f: nat)
    requires TextAt(m + post, f, Footer) && |m| <= f
    ensures TextAt(post, f - |m|, Footer)
  {
    assert (m + post)[f..f + |Footer|] == post[f - |m|..f - |m| + |Footer|];
  }

  /** EmptiedBlockStays for a table written out: a header, whitespace, `{`
      and a newline, whitespace and the closing text, between a text without
      a header and a text without a closing text. */
  lemma EmptiedTableStays(pre: string, w1: string, w2: string, post: string, dryRun: bool)
    requires AllIn(w1, Space) && AllIn(w2, Space) && '\n' !in w2
    requires forall i: nat :: !TextAt(pre, i, Header)
    requires forall f: nat :: !TextAt(post, f, Footer)
    ensures var s := pre + (Header + w1 + "{\n" + w2 + Footer) + post;
      !HasBlock(s) && RemoveRequiredModules(s, dryRun) == s
  {
    var m := Header + w1 + "{\n" + w2 + Footer;
    var s := pre + m + post;
    EmptiedText(pre, w1, w2, post);
    assert s == pre + (m + post);
    forall i: nat | i < |pre| ensures !TextAt(s, i, Header) {
      if TextAt(s, i, Header) {
        HeaderInPrefix(pre, m + post, i);
      }
    }
    assert |pre + m| == EmptiedEnd(|pre|, |w1|, |w2|);
    forall f: nat | EmptiedEnd(|pre|, |w1|, |w2|) <= f ensures !TextAt(s, f, Footer) {
      if TextAt(s, f, Footer) {
        FooterInSuffix(pre + m, post, f);
      }
    }
    EmptiedBlockStays(s, |pre|, |w1|, |w2|, dryRun);
  }
}
