/**
 * The inline-markup parser with its tail handling corrected: a level that
 * runs out of markers takes the rest of the input as its last segment and
 * reports the end of the input as where it stopped, so an enclosing level
 * does not read that rest a second time.
 *
 * Everything else is as in `Markup`: the same moves, the same accumulator,
 * the same top-level unwrapping.
 */
module MarkupFixed {
  import opened Wrappers
  import opened MarkupTags
  import opened Markup

  /** The rest of one level's scan from `i`, with `acc` already pushed. */
  function ScanFixed(str: string, i: nat, acc: seq<Node>): (r: Level)
    requires i <= |str|
    ensures i <= r.pos <= |str|
    decreases |str| - i, 1
  {
    if i == |str| then Level(i, acc) else StepFixed(str, i, acc, Next(str, i))
  }

  function StepFixed(str: string, i: nat, acc: seq<Node>, m: Move): (r: Level)
    requires i < |str| && Fits(str, i, m)
    ensures i <= r.pos <= |str|
    decreases |str| - i, 0
  {
    match m
    case Close(len) => Level(i + len, acc)
    case Open(style, len) =>
      var inner := ScanFixed(str, i + len, []);
      ScanFixed(str, inner.pos, acc + [Styled(style, inner.nodes)])
    case Text(n) => ScanFixed(str, i + n, acc + [Plain(Substring(str, i, i + n))])
    case Tail => Level(|str|, acc + [Plain(Substring(str, i, |str|))])
  }

  // One lemma per branch of the loop body, stated with the loop's own tests,
  // so that the loop below never unfolds the scan itself.

  /** A closer at `i` ends the level just after itself and adds nothing. */
  lemma CloseMoveFixed(str: string, i: nat, acc: seq<Node>)
    requires i < |str| && MatchTag(str, i).Some? && MatchTag(str, i).value.closing
    ensures ScanFixed(str, i, acc) == Level(i + Width(MatchTag(str, i).value), acc)
  {
  }

  /** An opener at `i` pushes one styled node holding the nested level, and the
      scan resumes where the nested level stopped. */
  lemma OpenMoveFixed(str: string, i: nat, acc: seq<Node>)
    requires i < |str| && MatchTag(str, i).Some? && !MatchTag(str, i).value.closing
    ensures var t := MatchTag(str, i).value;
      var inner := ScanFixed(str, i + Width(t), []);
      ScanFixed(str, i, acc) == ScanFixed(str, inner.pos, acc + [Styled(t.style, inner.nodes)])
  {
  }

  /** With no marker at `i`, the non-empty text up to the next marker is pushed
      and the scan resumes at that marker. */
  lemma TextMoveFixed(str: string, i: nat, acc: seq<Node>)
    requires i < |str| && MatchTag(str, i).None? && FindTag(str, i).Some?
    ensures var n := FindTag(str, i).value;
      0 < n && ScanFixed(str, i, acc) == ScanFixed(str, i + n, acc + [Plain(Substring(str, i, i + n))])
  {
  }

  /** With no marker at or after `i`, the rest is pushed and the level stops at the end of the input. */
  lemma TailMoveFixed(str: string, i: nat, acc: seq<Node>)
    requires i < |str| && MatchTag(str, i).None? && FindTag(str, i).None?
    ensures ScanFixed(str, i, acc) == Level(|str|, acc + [Plain(Substring(str, i, |str|))])
  {
  }

  /** The loop, with the tail branch advancing to the end before it breaks. */
  method ParseFixed(str: string, start: nat) returns (pos: nat, result: seq<Node>)
    requires start <= |str|
    ensures Level(pos, result) == ScanFixed(str, start, [])
    decreases |str| - start
  {
    result := [];
    var i := start;
    while i < |str|
      invariant start <= i <= |str|
      invariant ScanFixed(str, i, result) == ScanFixed(str, start, [])
      decreases |str| - i
    {
      var tag := MatchTag(str, i);
      if tag.Some? {
        var len := Width(tag.value);
        if tag.value.closing {
          CloseMoveFixed(str, i, result);
          return i + len, result;
        }
        OpenMoveFixed(str, i, result);
        var innerPos, inner := ParseFixed(str, i + len);
        result := result + [Styled(tag.value.style, inner)];
        i := innerPos;
      } else {
        var next := FindTag(str, i);
        if next.None? {
          TailMoveFixed(str, i, result);
          if i < |str| {
            result := result + [Plain(Substring(str, i, |str|))];
          }
          i := |str|;
          break;
        }
        TextMoveFixed(str, i, result);
        if next.value > 0 {
          result := result + [Plain(Substring(str, i, i + next.value))];
        }
        i := i + next.value;
      }
    }
    pos := i;
  }

  /** The corrected top-level answer. */
  function ParseTextFixed(text: string): (r: Parsed)
    ensures r.Absent? <==> text == []
    ensures r.Many? ==> |r.nodes| != 1
    ensures text != [] ==> Nodes(r) == ScanFixed(text, 0, []).nodes
  {
    if text == [] then Absent
    else
      var nodes := ScanFixed(text, 0, []).nodes;
      if |nodes| == 1 then One(nodes[0]) else Many(nodes)
  }

  /** No closer starts at or after `i`. */
  predicate NoCloserFrom(str: string, i: nat)
  {
    forall k :: i <= k < |str| && MatchTag(str, k).Some? ==> !MatchTag(str, k).value.closing
  }

  /** A level after which no closer starts anywhere consumes the whole rest of
      the input. Unclosed levels that contain closed ones are covered by
      `ScanStopsFixed` instead. */
  lemma {:induction false} NoCloserRunsToEnd(str: string, i: nat, acc: seq<Node>)
    requires i <= |str| && NoCloserFrom(str, i)
    ensures ScanFixed(str, i, acc).pos == |str|
    decreases |str| - i, 1
  {
    if i < |str| {
      match Next(str, i)
      case Close(_) => assert false;
      case Open(style, len) =>
        var inner := ScanFixed(str, i + len, []);
        NoCloserRunsToEnd(str, i + len, []);
        NoCloserRunsToEnd(str, inner.pos, acc + [Styled(style, inner.nodes)]);
      case Text(n) =>
        NoCloserRunsToEnd(str, i + n, acc + [Plain(Substring(str, i, i + n))]);
      case Tail =>
    }
  }

  /** With the correction, a level stops only at the end of the input or just
      after a closer it consumed. So a nested level that is never closed runs
      to the end of the input, whatever closed levels it contains. */
  lemma {:induction false} ScanStopsFixed(str: string, i: nat, acc: seq<Node>)
    requires i <= |str|
    ensures var r := ScanFixed(str, i, acc);
      r.pos == |str| || exists q :: i <= q < r.pos && ClosesAt(str, q, r.pos)
    decreases |str| - i
  {
    if i < |str| {
      var tag := MatchTag(str, i);
      if tag.Some? && tag.value.closing {
        CloseMoveFixed(str, i, acc);
        assert ClosesAt(str, i, i + Width(tag.value));
      } else if tag.Some? {
        OpenMoveFixed(str, i, acc);
        var inner := ScanFixed(str, i + Width(tag.value), []);
        ScanStopsFixed(str, inner.pos, acc + [Styled(tag.value.style, inner.nodes)]);
      } else if FindTag(str, i).Some? {
        var n := FindTag(str, i).value;
        TextMoveFixed(str, i, acc);
        ScanStopsFixed(str, i + n, acc + [Plain(Substring(str, i, i + n))]);
      } else {
        TailMoveFixed(str, i, acc);
      }
    }
  }

  /** With the correction, an opener that is never closed and is followed by
      marker-free text wraps that text once and nothing follows it. */
  lemma UnterminatedWrapsTail(text: string, t: Tag)
    requires MatchTag(text, 0) == Some(t) && !t.closing && Width(t) < |text|
    requires forall k :: Width(t) <= k < |text| ==> MatchTag(text, k).None?
    ensures ParseTextFixed(text) == One(Styled(t.style, [Plain(text[Width(t)..])]))
  {
    var len := Width(t);
    var rest := text[len..];
    FindTagFinds(text, len, |text| - len);
    SubstringIsSlice(text, len, |text|);
    assert text[len..|text|] == rest;
    assert Next(text, 0) == Open(t.style, len);
    assert Next(text, len) == Tail;
    assert [] + [Plain(rest)] == [Plain(rest)];
    assert ScanFixed(text, len, []) == StepFixed(text, len, [], Tail) == Level(|text|, [Plain(rest)]);
    var styled := Styled(t.style, [Plain(rest)]);
    assert [] + [styled] == [styled];
    assert ScanFixed(text, 0, []) == ScanFixed(text, |text|, [styled]) == Level(|text|, [styled]);
  }

  /** `<i>abc` parses to emphasised "abc" alone. */
  lemma UnterminatedExampleFixed()
    ensures ParseTextFixed("<i>abc") == One(Styled(Emphasis, [Plain("abc")]))
  {
    var text := "<i>abc";
    assert TokenAt(text, 0, Token(Tag(false, Emphasis)));
    MatchTagExact(text, 0, Tag(false, Emphasis));
    forall k | 3 <= k < |text| ensures MatchTag(text, k).None? {
      if MatchTag(text, k).Some? {
        TagEnds(text, k);
      }
    }
    UnterminatedWrapsTail(text, Tag(false, Emphasis));
  }
}
