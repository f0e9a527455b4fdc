/**
 * The vocabulary of the banner's inline markup: the three styles, the output
 * tree, and the recognition of the six marker tokens `<i>`, `<strong>`,
 * `<span>`, `</i>`, `</strong>`, `</span>`, compared without regard to the
 * case of ASCII letters.
 */
module MarkupTags {
  import opened Wrappers

  /** `<i>` is emphasis, `<strong>` is strong, `<span>` is the critical tone. */
  datatype Style = Emphasis | Strong | Critical

  /** One unit of rendered text: a literal segment, or a styled wrapper around
      child segments kept in document order. */
  datatype Node = Plain(text: string) | Styled(style: Style, children: seq<Node>)

  /** A recognised marker: an opener or a closer naming one of the styles. */
  datatype Tag = Tag(closing: bool, style: Style)

  function Name(style: Style): string
  {
    match style
    case Emphasis => "i"
    case Strong => "strong"
    case Critical => "span"
  }

  /** The lower-case spelling of a marker, such as `</strong>`. A marker is a
      bracketed token with no bracket inside it and no upper-case letter. */
  function Token(t: Tag): (tok: string)
    ensures 3 <= |tok| <= 9
  {
    "<" + (if t.closing then "/" else "") + Name(t.style) + ">"
  }

  /** The number of characters of `Name(style)`. */
  function NameWidth(style: Style): nat
  {
    match style
    case Emphasis => 1
    case Strong => 6
    case Critical => 4
  }

  /** The number of characters of a marker's token: the brackets, the slash
      of a closer, and the name. */
  function Width(t: Tag): nat
  {
    (if t.closing then 3 else 2) + NameWidth(t.style)
  }

  lemma WidthOfToken(t: Tag)
    ensures NameWidth(t.style) == |Name(t.style)| && Width(t) == |Token(t)|
  {
  }

  lemma TokenShape(t: Tag)
    ensures Token(t)[0] == '<' && Token(t)[|Token(t)| - 1] == '>'
    ensures forall j :: 0 < j < |Token(t)| - 1 ==> Token(t)[j] != '<' && Token(t)[j] != '>'
    ensures forall j :: 0 <= j < |Token(t)| ==> LowerChar(Token(t)[j]) == Token(t)[j]
  {
  }

  /** Case folding as a case-insensitive regular expression without the
      Unicode flag does it for these tokens: only ASCII letters fold. */
  function LowerChar(c: char): (d: char)
    ensures !('A' <= d <= 'Z')
    ensures d != c ==> 'A' <= c <= 'Z'
    ensures d == '<' <==> c == '<'
    ensures d == '>' <==> c == '>'
  {
    if 'A' <= c <= 'Z' then (c as int + 32) as char else c
  }

  function LowerStr(s: string): (r: string)
    ensures |r| == |s|
  {
    seq(|s|, k requires 0 <= k < |s| => LowerChar(s[k]))
  }

  /** `s` spells `tok` at index `i`, ignoring the case of letters. */
  predicate TokenAt(s: string, i: nat, tok: string)
    decreases |tok|
  {
    i + |tok| <= |s| && (tok == [] || (LowerChar(s[i]) == tok[0] && TokenAt(s, i + 1, tok[1..])))
  }

  lemma {:induction false} TokenAtChar(s: string, i: nat, tok: string, j: nat)
    requires TokenAt(s, i, tok) && j < |tok|
    ensures i + |tok| <= |s| && LowerChar(s[i + j]) == tok[j]
    decreases j
  {
    if j > 0 {
      TokenAtChar(s, i + 1, tok[1..], j - 1);
    }
  }

  /** The pattern `<(\/?)(i|strong|span)>` matched at index `j` one part at a
      time: part 0 is the `<`, part 1 the optional `/` (which makes the marker
      a closer), part 2 the name and the final `>`. */
  function MatchPart(s: string, j: nat, part: nat, closing: bool): (r: Option<Tag>)
    ensures r.Some? && part == 0 ==> j + Width(r.value) <= |s|
    ensures r.Some? && part == 1 ==> j + Width(r.value) <= |s| + 1
    ensures r.Some? && part >= 2 ==> r.value.closing == closing && j + NameWidth(r.value.style) < |s|
    decreases |s| - j, 2 - part
  {
    if part == 0 then
      if j < |s| && s[j] == '<' then MatchPart(s, j + 1, 1, false) else None
    else if part == 1 then
      if j < |s| && s[j] == '/' then MatchPart(s, j + 1, 2, true) else MatchPart(s, j, 2, false)
    else if TokenAt(s, j, Name(Emphasis) + ">") then Some(Tag(closing, Emphasis))
    else if TokenAt(s, j, Name(Strong) + ">") then Some(Tag(closing, Strong))
    else if TokenAt(s, j, Name(Critical) + ">") then Some(Tag(closing, Critical))
    else None
  }

  /** The marker that starts at index `i` of `s`, if any. */
  function MatchTag(s: string, i: nat): (r: Option<Tag>)
    ensures r.Some? ==> i + Width(r.value) <= |s|
  {
    MatchPart(s, i, 0, false)
  }

  /** A recognised marker is spelled, up to the case of letters, at its index. */
  lemma MatchTagSpells(s: string, i: nat)
    ensures MatchTag(s, i).Some? ==> TokenAt(s, i, Token(MatchTag(s, i).value))
  {
    if MatchTag(s, i).Some? {
      var t := MatchTag(s, i).value;
      var word := Name(t.style) + ">";
      assert i < |s| && s[i] == '<' && MatchPart(s, i + 1, 1, false) == Some(t);
      if i + 1 < |s| && s[i + 1] == '/' {
        assert MatchPart(s, i + 2, 2, true) == Some(t);
        assert Token(t) == ['<'] + (['/'] + word);
        TokenAtCons(s, i, '<', ['/'] + word);
        TokenAtCons(s, i + 1, '/', word);
      } else {
        assert MatchPart(s, i + 1, 2, false) == Some(t);
        assert Token(t) == ['<'] + word;
        TokenAtCons(s, i, '<', word);
      }
    }
  }

  /** The offset, from `i`, of the first marker at or after `i`, as a search
      of `s[i..]` reports it; `None` when there is none. */
  function FindTag(s: string, i: nat): (r: Option<nat>)
    requires i <= |s|
    ensures r.Some? ==> i + r.value < |s|
    decreases |s| - i
  {
    if i == |s| then None
    else if MatchTag(s, i).Some? then Some(0)
    else match FindTag(s, i + 1)
      case None => None
      case Some(n) => Some(n + 1)
  }

  /** The search reports an index where a marker does start. */
  lemma {:induction false} FindTagFound(s: string, i: nat)
    requires i <= |s|
    ensures FindTag(s, i).Some? ==> MatchTag(s, i + FindTag(s, i).value).Some?
    decreases |s| - i
  {
    if i < |s| && MatchTag(s, i).None? {
      FindTagFound(s, i + 1);
    }
  }

  /** The search skips no marker: none starts before the one it reports, and
      none at all when it reports none. */
  lemma {:induction false} FindTagFirst(s: string, i: nat)
    requires i <= |s|
    ensures var r := FindTag(s, i);
      forall k :: i <= k < |s| && (r.None? || k < i + r.value) ==> MatchTag(s, k).None?
    decreases |s| - i
  {
    if i < |s| {
      FindTagFirst(s, i + 1);
    }
  }

  /** Conversely, the search reports the first marker after a marker-free
      stretch, and nothing after a marker-free rest. */
  lemma {:induction false} FindTagFinds(s: string, i: nat, n: nat)
    requires i + n <= |s|
    requires forall k :: i <= k < i + n ==> MatchTag(s, k).None?
    ensures i + n < |s| && MatchTag(s, i + n).Some? ==> FindTag(s, i) == Some(n)
    ensures i + n == |s| ==> FindTag(s, i).None?
    decreases n
  {
    if n > 0 {
      FindTagFinds(s, i + 1, n - 1);
    }
  }

  /** `s` spells `tok` at `i` exactly when it spells its first character
      there and the rest just after. */
  lemma TokenAtCons(s: string, i: nat, c: char, tok: string)
    ensures TokenAt(s, i, [c] + tok) <==> i < |s| && LowerChar(s[i]) == c && TokenAt(s, i + 1, tok)
  {
    assert ([c] + tok)[1..] == tok;
  }

  /** Two names spelled at the same index, each followed by `>`, are one name. */
  lemma NamesDiffer(s: string, j: nat, st1: Style, st2: Style)
    requires TokenAt(s, j, Name(st1) + ">") && TokenAt(s, j, Name(st2) + ">")
    ensures st1 == st2
  {
    TokenAtChar(s, j, Name(st1) + ">", 0);
    TokenAtChar(s, j, Name(st2) + ">", 0);
    TokenAtChar(s, j, Name(st1) + ">", 1);
    TokenAtChar(s, j, Name(st2) + ">", 1);
  }

  /** A marker is recognised at `i` exactly when the input spells it there. */
  lemma MatchTagExact(s: string, i: nat, t: Tag)
    ensures MatchTag(s, i) == Some(t) <==> TokenAt(s, i, Token(t))
  {
    MatchTagSpells(s, i);
    if TokenAt(s, i, Token(t)) {
      var word := Name(t.style) + ">";
      TokenAtChar(s, i, Token(t), 0);
      if t.closing {
        assert Token(t) == ['<'] + (['/'] + word);
        TokenAtCons(s, i, '<', ['/'] + word);
        TokenAtCons(s, i + 1, '/', word);
        var r := MatchPart(s, i + 2, 2, true);
        assert r.Some?;
        assert MatchTag(s, i) == MatchPart(s, i + 1, 1, false) == r;
        NamesDiffer(s, i + 2, r.value.style, t.style);
      } else {
        assert Token(t) == ['<'] + word;
        TokenAtCons(s, i, '<', word);
        TokenAtChar(s, i + 1, word, 0);
        var r := MatchPart(s, i + 1, 2, false);
        assert r.Some?;
        assert MatchTag(s, i) == MatchPart(s, i + 1, 1, false) == r;
        NamesDiffer(s, i + 1, r.value.style, t.style);
      }
    }
  }

  lemma {:induction false} TokenAtIgnoresCase(s: string, i: nat, tok: string)
    ensures TokenAt(LowerStr(s), i, tok) == TokenAt(s, i, tok)
    decreases |tok|
  {
    if tok != [] && i + |tok| <= |s| {
      TokenAtIgnoresCase(s, i + 1, tok[1..]);
    }
  }

  /** Tag recognition ignores case: folding the whole input to lower case
      changes no marker. */
  lemma MatchTagIgnoresCase(s: string, i: nat)
    ensures MatchTag(LowerStr(s), i) == MatchTag(s, i)
  {
    var low := LowerStr(s);
    MatchTagSpells(s, i);
    MatchTagSpells(low, i);
    if MatchTag(s, i).Some? {
      var t := MatchTag(s, i).value;
      TokenAtIgnoresCase(s, i, Token(t));
      MatchTagExact(low, i, t);
    } else if MatchTag(low, i).Some? {
      var t := MatchTag(low, i).value;
      TokenAtIgnoresCase(s, i, Token(t));
      MatchTagExact(s, i, t);
    }
  }

  /** The search depends only on which markers start where. */
  lemma {:induction false} FindTagSameMarkers(s: string, u: string, i: nat)
    requires i <= |s| == |u|
    requires forall k :: i <= k < |s| ==> MatchTag(u, k) == MatchTag(s, k)
    ensures FindTag(u, i) == FindTag(s, i)
    decreases |s| - i
  {
    if i < |s| {
      FindTagSameMarkers(s, u, i + 1);
    }
  }

  lemma FindTagIgnoresCase(s: string, i: nat)
    requires i <= |s|
    ensures FindTag(LowerStr(s), i) == FindTag(s, i)
  {
    forall k | i <= k < |s| ensures MatchTag(LowerStr(s), k) == MatchTag(s, k) {
      MatchTagIgnoresCase(s, k);
    }
    FindTagSameMarkers(s, LowerStr(s), i);
  }

  lemma {:induction false} TokenAtInSlice(s: string, a: nat, b: nat, k: nat, tok: string)
    requires a <= b <= |s| && TokenAt(s[a..b], k, tok)
    ensures TokenAt(s, a + k, tok)
    decreases |tok|
  {
    if tok != [] {
      TokenAtInSlice(s, a, b, k + 1, tok[1..]);
    }
  }

  /** A marker inside a slice is a marker of the whole string. */
  lemma MatchTagInSlice(s: string, a: nat, b: nat, k: nat)
    requires a <= b <= |s| && MatchTag(s[a..b], k).Some?
    ensures MatchTag(s, a + k) == MatchTag(s[a..b], k)
  {
    var t := MatchTag(s[a..b], k).value;
    MatchTagSpells(s[a..b], k);
    TokenAtInSlice(s, a, b, k, Token(t));
    MatchTagExact(s, a + k, t);
  }

  /** A marker found at `k` starts with `<` and ends with `>`. */
  lemma TagEnds(s: string, k: nat)
    requires MatchTag(s, k).Some?
    ensures s[k] == '<' && s[k + Width(MatchTag(s, k).value) - 1] == '>'
  {
    var t := MatchTag(s, k).value;
    MatchTagSpells(s, k);
    WidthOfToken(t);
    TokenShape(t);
    TokenAtChar(s, k, Token(t), 0);
    TokenAtChar(s, k, Token(t), |Token(t)| - 1);
  }
}
