/**
 * The inline-markup parser of the checkout banner, as the code is written:
 * one left-to-right scan per nesting level. An opener starts a recursive scan
 * just after itself, a closer of any name ends the current level, and the text
 * between markers becomes plain segments.
 *
 * `Scan` is the specification of one level (the loop, written as a tail
 * recursion whose accumulator is the list built so far, one `Step` per
 * iteration); `Parse` is the loop itself, proved equal to it.
 */
module Markup {
  import opened Wrappers
  import opened MarkupTags

  /** What one level returns: the index where the scan stopped and the
      sibling nodes it produced. */
  datatype Level = Level(pos: nat, nodes: seq<Node>)

  /** The answer to the whole input: nothing for empty input, one node
      unwrapped, or the list of top-level nodes (which may be empty). */
  datatype Parsed = Absent | One(node: Node) | Many(nodes: seq<Node>)

  /** What one iteration of the loop does at an index inside the input: end
      the level at a closer of length `len`, descend past an opener, take the
      `n` characters before the next marker, or take the marker-free rest. */
  datatype Move = Close(len: nat) | Open(style: Style, len: nat) | Text(n: nat) | Tail

  /** The move stays inside the input, and every move except the tail advances
      the scan; the tail move ends the level where it stands. */
  predicate Fits(str: string, i: nat, m: Move)
  {
    match m
    case Close(len) => 0 < len && i + len <= |str|
    case Open(_, len) => 0 < len && i + len <= |str|
    case Text(n) => 0 < n && i + n < |str|
    case Tail => true
  }

  /** The move the loop makes at index `i`: a marker at `i` is handled first;
      otherwise the search for the next marker decides. */
  function Next(str: string, i: nat): (m: Move)
    requires i < |str|
    ensures Fits(str, i, m)
  {
    match MatchTag(str, i)
    case Some(t) => if t.closing then Close(Width(t)) else Open(t.style, Width(t))
    case None =>
      match FindTag(str, i)
      case None => Tail
      case Some(n) => Text(n)
  }

  /** The characters of `s` from index `a` up to, not including, `b`: the
      string's `substring(a, b)`. */
  function Substring(s: string, a: nat, b: nat): (r: string)
    requires a <= b <= |s|
    ensures |r| == b - a
    decreases b - a
  {
    if a == b then [] else [s[a]] + Substring(s, a + 1, b)
  }

  lemma {:induction false} SubstringIsSlice(s: string, a: nat, b: nat)
    requires a <= b <= |s|
    ensures Substring(s, a, b) == s[a..b]
    decreases b - a
  {
    if a < b {
      SubstringIsSlice(s, a + 1, b);
    }
  }

  /** The rest of one level's scan, from index `i`, with `acc` already pushed. */
  function Scan(str: string, i: nat, acc: seq<Node>): (r: Level)
    requires i <= |str|
    ensures i <= r.pos <= |str|
    decreases |str| - i, 1
  {
    if i == |str| then Level(i, acc) else Step(str, i, acc, Next(str, i))
  }

  /** One iteration followed by the rest of the scan. */
  function Step(str: string, i: nat, acc: seq<Node>, m: Move): (r: Level)
    requires i < |str| && Fits(str, i, m)
    ensures i <= r.pos <= |str|
    decreases |str| - i, 0
  {
    match m
    case Close(len) => Level(i + len, acc)
    case Open(style, len) =>
      var inner := Scan(str, i + len, []);
      Scan(str, inner.pos, acc + [Styled(style, inner.nodes)])
    case Text(n) => Scan(str, i + n, acc + [Plain(Substring(str, i, i + n))])
    // the loop breaks without advancing: the level reports the start of the tail
    case Tail => Level(i, acc + [Plain(Substring(str, i, |str|))])
  }

  // One lemma per branch of the loop body, stated with the loop's own tests,
  // so that the loop below never unfolds the scan itself.

  /** A closer at `i` ends the level just after itself and adds nothing. */
  lemma CloseMove(str: string, i: nat, acc: seq<Node>)
    requires i < |str| && MatchTag(str, i).Some? && MatchTag(str, i).value.closing
    ensures Scan(str, i, acc) == Level(i + Width(MatchTag(str, i).value), acc)
  {
  }

  /** An opener at `i` pushes one styled node holding the nested level, and the
      scan resumes where the nested level stopped. */
  lemma OpenMove(str: string, i: nat, acc: seq<Node>)
    requires i < |str| && MatchTag(str, i).Some? && !MatchTag(str, i).value.closing
    ensures var t := MatchTag(str, i).value;
      var inner := Scan(str, i + Width(t), []);
      Scan(str, i, acc) == Scan(str, inner.pos, acc + [Styled(t.style, inner.nodes)])
  {
  }

  /** With no marker at `i`, the non-empty text up to the next marker is pushed
      and the scan resumes at that marker. */
  lemma TextMove(str: string, i: nat, acc: seq<Node>)
    requires i < |str| && MatchTag(str, i).None? && FindTag(str, i).Some?
    ensures var n := FindTag(str, i).value;
      0 < n && Scan(str, i, acc) == Scan(str, i + n, acc + [Plain(Substring(str, i, i + n))])
  {
  }

  /** With no marker at or after `i`, the rest is pushed and the level stops at the start of that rest. */
  lemma TailMove(str: string, i: nat, acc: seq<Node>)
    requires i < |str| && MatchTag(str, i).None? && FindTag(str, i).None?
    ensures Scan(str, i, acc) == Level(i, acc + [Plain(Substring(str, i, |str|))])
  {
  }

  /** One level of the parser: the loop of the source, recursing per opener. */
  method Parse(str: string, start: nat) returns (pos: nat, result: seq<Node>)
    requires start <= |str|
    ensures Level(pos, result) == Scan(str, start, [])
    decreases |str| - start
  {
    result := [];
    var i := start;
    while i < |str|
      invariant start <= i <= |str|
      invariant Scan(str, i, result) == Scan(str, start, [])
      decreases |str| - i
    {
      var tag := MatchTag(str, i);
      if tag.Some? {
        var len := Width(tag.value);
        if tag.value.closing {
          CloseMove(str, i, result);
          return i + len, result;
        }
        OpenMove(str, i, result);
        var innerPos, inner := Parse(str, i + len);
        result := result + [Styled(tag.value.style, inner)];
        i := innerPos;
      } else {
        var next := FindTag(str, i);
        if next.None? {
          TailMove(str, i, result);
          if i < |str| {
            result := result + [Plain(Substring(str, i, |str|))];
          }
          break;
        }
        TextMove(str, i, result);
        if next.value > 0 {
          result := result + [Plain(Substring(str, i, i + next.value))];
        }
        i := i + next.value;
      }
    }
    pos := i;
  }

  /** The top-level nodes an answer stands for. */
  function Nodes(p: Parsed): seq<Node>
  {
    match p
    case Absent => []
    case One(n) => [n]
    case Many(ns) => ns
  }

  /** The top-level answer for `text`: nothing for empty text; otherwise the
      top level's nodes, a single one unwrapped. */
  function ParseText(text: string): (r: Parsed)
    ensures r.Absent? <==> text == []
    ensures r.Many? ==> |r.nodes| != 1
    ensures text != [] ==> Nodes(r) == Scan(text, 0, []).nodes
  {
    if text == [] then Absent
    else
      var nodes := Scan(text, 0, []).nodes;
      if |nodes| == 1 then One(nodes[0]) else Many(nodes)
  }

  method ParseTextWithTags(text: string) returns (r: Parsed)
    ensures r == ParseText(text)
  {
    if text == [] {
      return Absent;
    }
    var _, nodes := Parse(text, 0);
    r := if |nodes| == 1 then One(nodes[0]) else Many(nodes);
  }

  // ---------------------------------------------------------------------------
  // The accumulator
  //
  // Each property of a level is proved twice over, as the functions are
  // defined: for `Scan` at an index, and for `Step` with a given move.
  // ---------------------------------------------------------------------------

  /** What a level already pushed is kept, in front of what it pushes next. */
  lemma {:induction false} ScanKeepsPushed(str: string, i: nat, acc: seq<Node>)
    requires i <= |str|
    ensures Scan(str, i, acc) == Level(Scan(str, i, []).pos, acc + Scan(str, i, []).nodes)
    decreases |str| - i, 1
  {
    if i < |str| {
      match Next(str, i)
      case Close(_) =>
      case Open(style, len) => OpenKeepsPushed(str, i, acc, style, len);
      case Text(n) => TextKeepsPushed(str, i, acc, n);
      case Tail =>
    }
  }

  lemma {:induction false} OpenKeepsPushed(str: string, i: nat, acc: seq<Node>, style: Style, len: nat)
    requires 0 < len && i + len <= |str|
    ensures var r := Step(str, i, [], Open(style, len));
      Step(str, i, acc, Open(style, len)) == Level(r.pos, acc + r.nodes)
    decreases |str| - i, 0
  {
    var inner := Scan(str, i + len, []);
    var node := Styled(style, inner.nodes);
    assert [] + [node] == [node];
    ScanKeepsPushed(str, inner.pos, acc + [node]);
    ScanKeepsPushed(str, inner.pos, [node]);
    assert acc + [node] + Scan(str, inner.pos, []).nodes == acc + ([node] + Scan(str, inner.pos, []).nodes);
  }

  lemma {:induction false} TextKeepsPushed(str: string, i: nat, acc: seq<Node>, n: nat)
    requires 0 < n && i + n < |str|
    ensures var r := Step(str, i, [], Text(n));
      Step(str, i, acc, Text(n)) == Level(r.pos, acc + r.nodes)
    decreases |str| - i, 0
  {
    var node := Plain(Substring(str, i, i + n));
    assert [] + [node] == [node];
    ScanKeepsPushed(str, i + n, acc + [node]);
    ScanKeepsPushed(str, i + n, [node]);
    assert acc + [node] + Scan(str, i + n, []).nodes == acc + ([node] + Scan(str, i + n, []).nodes);
  }

  // ---------------------------------------------------------------------------
  // What every produced node looks like
  // ---------------------------------------------------------------------------

  /** No marker starts anywhere in `s`. */
  predicate TagFree(s: string)
  {
    forall k :: 0 <= k < |s| ==> MatchTag(s, k).None?
  }

  /** Every plain segment, at any depth, is non-empty and holds no marker. */
  predicate WellFormed(n: Node)
  {
    match n
    case Plain(s) => s != [] && TagFree(s)
    case Styled(_, cs) => AllWellFormed(cs)
  }

  predicate AllWellFormed(ns: seq<Node>)
  {
    forall k :: 0 <= k < |ns| ==> WellFormed(ns[k])
  }

  lemma AppendWellFormed(ns: seq<Node>, n: Node)
    requires AllWellFormed(ns) && WellFormed(n)
    ensures AllWellFormed(ns + [n])
  {
    assert forall k :: 0 <= k < |ns| ==> (ns + [n])[k] == ns[k];
  }

  /** A stretch in which no marker starts is a tag-free segment. */
  lemma SliceTagFree(s: string, a: nat, b: nat)
    requires a <= b <= |s|
    requires forall k :: a <= k < b ==> MatchTag(s, k).None?
    ensures TagFree(Substring(s, a, b))
  {
    SubstringIsSlice(s, a, b);
    forall k | 0 <= k < b - a ensures MatchTag(s[a..b], k).None? {
      if MatchTag(s[a..b], k).Some? {
        MatchTagInSlice(s, a, b, k);
      }
    }
  }

  /** The text a move takes is a non-empty, tag-free segment of the input. */
  lemma TextTagFree(str: string, i: nat)
    requires i < |str|
    ensures Next(str, i).Text? ==> WellFormed(Plain(Substring(str, i, i + Next(str, i).n)))
    ensures Next(str, i).Tail? ==> WellFormed(Plain(Substring(str, i, |str|)))
  {
    FindTagFirst(str, i);
    match Next(str, i)
    case Text(n) => SliceTagFree(str, i, i + n);
    case Tail => SliceTagFree(str, i, |str|);
    case _ =>
  }

  /** The parser never emits an empty or marker-bearing plain segment. */
  lemma {:induction false} ScanWellFormed(str: string, i: nat, acc: seq<Node>)
    requires i <= |str| && AllWellFormed(acc)
    ensures AllWellFormed(Scan(str, i, acc).nodes)
    decreases |str| - i, 1
  {
    if i < |str| {
      TextTagFree(str, i);
      StepWellFormed(str, i, acc, Next(str, i));
    }
  }

  lemma {:induction false} StepWellFormed(str: string, i: nat, acc: seq<Node>, m: Move)
    requires i < |str| && Fits(str, i, m) && AllWellFormed(acc)
    requires m.Text? ==> WellFormed(Plain(Substring(str, i, i + m.n)))
    requires m.Tail? ==> WellFormed(Plain(Substring(str, i, |str|)))
    ensures AllWellFormed(Step(str, i, acc, m).nodes)
    decreases |str| - i, 0
  {
    match m
    case Close(_) =>
    case Open(style, len) =>
      var inner := Scan(str, i + len, []);
      ScanWellFormed(str, i + len, []);
      AppendWellFormed(acc, Styled(style, inner.nodes));
      ScanWellFormed(str, inner.pos, acc + [Styled(style, inner.nodes)]);
    case Text(n) =>
      AppendWellFormed(acc, Plain(Substring(str, i, i + n)));
      ScanWellFormed(str, i + n, acc + [Plain(Substring(str, i, i + n))]);
    case Tail =>
      AppendWellFormed(acc, Plain(Substring(str, i, |str|)));
  }

  // ---------------------------------------------------------------------------
  // Where a level stops
  // ---------------------------------------------------------------------------

  /** A closer starts at `q` and ends exactly at `p`. */
  predicate ClosesAt(str: string, q: nat, p: nat)
  {
    MatchTag(str, q).Some? && MatchTag(str, q).value.closing && q + Width(MatchTag(str, q).value) == p
  }

  /** Where a level can stop: at the end of the input, just after a closer,
      or, having run out of markers, at the start of the tag-free tail that it
      emitted as its last node. */
  predicate StopsWell(str: string, i: nat, r: Level)
  {
    || r.pos == |str|
    || (exists q :: i <= q < r.pos && ClosesAt(str, q, r.pos))
    || (r.pos < |str| && |r.nodes| > 0 && r.nodes[|r.nodes| - 1] == Plain(Substring(str, r.pos, |str|)))
  }

  lemma {:induction false} ScanStops(str: string, i: nat, acc: seq<Node>)
    requires i <= |str|
    ensures StopsWell(str, i, Scan(str, i, acc))
    decreases |str| - i, 1
  {
    if i < |str| {
      StepStops(str, i, acc, Next(str, i));
      if Next(str, i).Close? {
        assert ClosesAt(str, i, i + Next(str, i).len);
      }
    }
  }

  lemma {:induction false} StepStops(str: string, i: nat, acc: seq<Node>, m: Move)
    requires i < |str| && Fits(str, i, m)
    ensures m.Close? || StopsWell(str, i, Step(str, i, acc, m))
    decreases |str| - i, 0
  {
    match m
    case Close(_) =>
    case Open(style, len) =>
      var inner := Scan(str, i + len, []);
      ScanStops(str, inner.pos, acc + [Styled(style, inner.nodes)]);
    case Text(n) =>
      ScanStops(str, i + n, acc + [Plain(Substring(str, i, i + n))]);
    case Tail =>
  }

  // ---------------------------------------------------------------------------
  // Case-insensitivity
  // ---------------------------------------------------------------------------

  function LowerNode(n: Node): Node
    decreases n
  {
    match n
    case Plain(s) => Plain(LowerStr(s))
    case Styled(st, cs) => Styled(st, LowerNodes(cs))
  }

  function LowerNodes(ns: seq<Node>): (r: seq<Node>)
    ensures |r| == |ns|
    decreases ns
  {
    if ns == [] then [] else LowerNodes(ns[..|ns| - 1]) + [LowerNode(ns[|ns| - 1])]
  }

  lemma LowerNodesAppend(ns: seq<Node>, n: Node)
    ensures LowerNodes(ns + [n]) == LowerNodes(ns) + [LowerNode(n)]
  {
    assert (ns + [n])[..|ns|] == ns;
  }

  lemma LowerSubstring(s: string, a: nat, b: nat)
    requires a <= b <= |s|
    ensures LowerStr(Substring(s, a, b)) == Substring(LowerStr(s), a, b)
  {
    SubstringIsSlice(s, a, b);
    SubstringIsSlice(LowerStr(s), a, b);
    assert LowerStr(s[a..b]) == LowerStr(s)[a..b];
  }

  /** Folding the input to lower case leaves every move unchanged. */
  lemma NextIgnoresCase(str: string, i: nat)
    requires i < |str|
    ensures Next(LowerStr(str), i) == Next(str, i)
  {
    MatchTagIgnoresCase(str, i);
    FindTagIgnoresCase(str, i);
  }

  /** Markers are recognised without regard to case: scanning the lower-cased
      input stops at the same index and yields the same tree, with only the
      plain text lower-cased. */
  lemma {:induction false} ScanIgnoresCase(str: string, i: nat, acc: seq<Node>)
    requires i <= |str|
    ensures var r := Scan(str, i, acc);
      Scan(LowerStr(str), i, LowerNodes(acc)) == Level(r.pos, LowerNodes(r.nodes))
    decreases |str| - i, 1
  {
    if i < |str| {
      NextIgnoresCase(str, i);
      match Next(str, i)
      case Close(_) =>
      case Open(style, len) => OpenIgnoresCase(str, i, acc, style, len);
      case Text(n) => TextIgnoresCase(str, i, acc, n);
      case Tail =>
        LowerSubstring(str, i, |str|);
        LowerNodesAppend(acc, Plain(Substring(str, i, |str|)));
    }
  }

  lemma {:induction false} OpenIgnoresCase(str: string, i: nat, acc: seq<Node>, style: Style, len: nat)
    requires 0 < len && i + len <= |str|
    ensures var r := Step(str, i, acc, Open(style, len));
      Step(LowerStr(str), i, LowerNodes(acc), Open(style, len)) == Level(r.pos, LowerNodes(r.nodes))
    decreases |str| - i, 0
  {
    var inner := Scan(str, i + len, []);
    ScanIgnoresCase(str, i + len, []);
    LowerNodesAppend(acc, Styled(style, inner.nodes));
    ScanIgnoresCase(str, inner.pos, acc + [Styled(style, inner.nodes)]);
  }

  lemma {:induction false} TextIgnoresCase(str: string, i: nat, acc: seq<Node>, n: nat)
    requires 0 < n && i + n < |str|
    ensures var r := Step(str, i, acc, Text(n));
      Step(LowerStr(str), i, LowerNodes(acc), Text(n)) == Level(r.pos, LowerNodes(r.nodes))
    decreases |str| - i, 0
  {
    var node := Plain(Substring(str, i, i + n));
    LowerSubstring(str, i, i + n);
    LowerNodesAppend(acc, node);
    ScanIgnoresCase(str, i + n, acc + [node]);
    assert Step(LowerStr(str), i, LowerNodes(acc), Text(n))
      == Scan(LowerStr(str), i + n, LowerNodes(acc) + [LowerNode(node)]);
  }

  // ---------------------------------------------------------------------------
  // One marker at a time
  // ---------------------------------------------------------------------------

  /** An opener spelled at `i`, in any letter case, pushes exactly one node of
      its style. Its children are what the nested level finds just after the
      opener, and this level resumes where the nested one stopped. */
  lemma OpenerNests(str: string, i: nat, acc: seq<Node>, style: Style)
    requires TokenAt(str, i, Token(Tag(false, style)))
    ensures var inner := Scan(str, i + Width(Tag(false, style)), []);
      Scan(str, i, acc) == Scan(str, inner.pos, acc + [Styled(style, inner.nodes)])
  {
    MatchTagExact(str, i, Tag(false, style));
  }

  /** A closer of any name spelled at `i` ends the level just after itself,
      whatever opener the level began with, and adds nothing. */
  lemma CloserEnds(str: string, i: nat, acc: seq<Node>, style: Style)
    requires TokenAt(str, i, Token(Tag(true, style)))
    ensures Scan(str, i, acc) == Level(i + Width(Tag(true, style)), acc)
  {
    MatchTagExact(str, i, Tag(true, style));
  }

  // ---------------------------------------------------------------------------
  // The top level
  // ---------------------------------------------------------------------------

  /** A non-empty input without markers comes back as one plain node equal to
      the whole input. */
  lemma NoTagIsOnePlain(text: string)
    requires text != [] && TagFree(text)
    ensures ParseText(text) == One(Plain(text))
  {
    FindTagFinds(text, 0, |text|);
    assert Next(text, 0) == Tail;
    assert Scan(text, 0, []) == Step(text, 0, [], Tail);
    SubstringIsSlice(text, 0, |text|);
    assert text[0..|text|] == text;
  }

  /** A closer met at top level ends the scan: whatever follows it is dropped. */
  lemma StrayCloserDropsRest(text: string, n: nat)
    requires n < |text| && forall k :: 0 <= k < n ==> MatchTag(text, k).None?
    requires MatchTag(text, n).Some? && MatchTag(text, n).value.closing
    ensures ParseText(text) == if n == 0 then Many([]) else One(Plain(text[..n]))
  {
    if n == 0 {
      CloseMove(text, 0, []);
    } else {
      FindTagFinds(text, 0, n);
      assert Next(text, 0) == Text(n);
      var node := Plain(Substring(text, 0, n));
      assert [] + [node] == [node];
      assert Scan(text, 0, []) == Scan(text, n, [node]);
      assert Next(text, n).Close?;
      assert Scan(text, n, [node]).nodes == [node];
      SubstringIsSlice(text, 0, n);
      assert text[0..n] == text[..n];
    }
  }

  /** Bracketed text other than the six markers stays literal text: a `b`
      element is not a marker. */
  lemma BoldStaysText()
    ensures ParseText("<b>") == One(Plain("<b>"))
  {
    var s := "<b>";
    forall k | 0 <= k < |s| ensures MatchTag(s, k).None? {
      if MatchTag(s, k).Some? {
        var t := MatchTag(s, k).value;
        MatchTagSpells(s, k);
        TokenAtChar(s, k, Token(t), 1);
      }
    }
    NoTagIsOnePlain(s);
  }

  /** Nor is a marker name followed by an attribute. */
  lemma AttributeStaysText()
    ensures ParseText("<i class=x>") == One(Plain("<i class=x>"))
  {
    var s := "<i class=x>";
    forall k | 0 <= k < |s| ensures MatchTag(s, k).None? {
      if MatchTag(s, k).Some? {
        var t := MatchTag(s, k).value;
        MatchTagSpells(s, k);
        if k == 0 {
          TokenAtChar(s, k, Token(t), 1);
          TokenAtChar(s, k, Token(t), 2);
        } else {
          TokenAtChar(s, k, Token(t), 0);
        }
      }
    }
    NoTagIsOnePlain(s);
  }

  /** As the code is written, a level that runs out of markers reports the
      start of its marker-free tail rather than the end of the input, so every
      enclosing level takes that tail again. For a single unclosed opener
      followed only by text, the text comes out twice: once inside the styled
      node and once more after it. */
  lemma UnterminatedTailDuplicated(text: string, t: Tag)
    requires MatchTag(text, 0) == Some(t) && !t.closing && Width(t) < |text|
    requires forall k :: Width(t) <= k < |text| ==> MatchTag(text, k).None?
    ensures var rest := text[Width(t)..];
      ParseText(text) == Many([Styled(t.style, [Plain(rest)]), Plain(rest)])
  {
    var len := Width(t);
    var rest := text[len..];
    FindTagFinds(text, len, |text| - len);
    SubstringIsSlice(text, len, |text|);
    assert text[len..|text|] == rest;
    assert Next(text, 0) == Open(t.style, len);
    assert Next(text, len) == Tail;
    assert [] + [Plain(rest)] == [Plain(rest)];
    assert Scan(text, len, []) == Step(text, len, [], Tail) == Level(len, [Plain(rest)]);
    var styled := Styled(t.style, [Plain(rest)]);
    assert [] + [styled] == [styled];
    assert Scan(text, 0, []) == Scan(text, len, [styled]);
    assert Scan(text, len, [styled]) == Step(text, len, [styled], Tail) == Level(len, [styled, Plain(rest)]);
  }

  /** `<i>abc` parses to emphasised "abc" followed by a second, plain "abc". */
  lemma UnterminatedExample()
    ensures ParseText("<i>abc") == Many([Styled(Emphasis, [Plain("abc")]), Plain("abc")])
  {
    var text := "<i>abc";
    assert TokenAt(text, 0, Token(Tag(false, Emphasis)));
    MatchTagExact(text, 0, Tag(false, Emphasis));
    forall k | 3 <= k < |text| ensures MatchTag(text, k).None? {
      if MatchTag(text, k).Some? {
        TagEnds(text, k);
      }
    }
    UnterminatedTailDuplicated(text, Tag(false, Emphasis));
  }
}
