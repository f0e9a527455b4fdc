/**
 * How the banner turns its merchant settings into the two text blocks and the
 * countdown duration. The shop's translations of the two default texts are
 * parameters; a setting the merchant left unset is `None`.
 */
module Settings {
  import opened Wrappers

  /** The settings the defaulting rules read. */
  datatype Config = Config(textBlock: Option<string>, textBlock2: Option<string>, timerTime: Option<int>)

  /** What the banner shows: the two text blocks and the starting value of the countdown. */
  datatype Resolved = Resolved(text: string, text2: string, timer: int)

  /** The duration used when none is configured, in seconds. */
  const DefaultTimer := 900

  /**
   * The characters JavaScript's `String.prototype.trim` removes: white space
   * (tab, vertical tab, form feed, space, no-break space, the byte order mark
   * and the Unicode space separators) and line terminators.
   */
  predicate IsWhitespace(c: char)
  {
    var n := c as int;
    (0x09 <= n <= 0x0D) || n == 0x20 || n == 0xA0 || n == 0x1680 ||
    (0x2000 <= n <= 0x200A) || n == 0x2028 || n == 0x2029 || n == 0x202F ||
    n == 0x205F || n == 0x3000 || n == 0xFEFF
  }

  /** `s` without its leading white space. */
  function TrimStart(s: string): (r: string)
    ensures |r| <= |s| && r == s[|s| - |r|..]
    ensures forall k :: 0 <= k < |s| - |r| ==> IsWhitespace(s[k])
    ensures r == [] || !IsWhitespace(r[0])
  {
    if s != [] && IsWhitespace(s[0]) then TrimStart(s[1..]) else s
  }

  /** `s` without its trailing white space. */
  function TrimEnd(s: string): (r: string)
    ensures |r| <= |s| && r == s[..|r|]
    ensures forall k :: |r| <= k < |s| ==> IsWhitespace(s[k])
    ensures r == [] || !IsWhitespace(r[|r| - 1])
  {
    if s != [] && IsWhitespace(s[|s| - 1]) then TrimEnd(s[..|s| - 1]) else s
  }

  /** `s.trim()`: the white space at both ends removed. */
  function Trim(s: string): (r: string)
    ensures |r| <= |s|
    ensures r == [] || (!IsWhitespace(r[0]) && !IsWhitespace(r[|r| - 1]))
  {
    TrimEnd(TrimStart(s))
  }

  /** A string trims to nothing exactly when every character of it is white space. */
  lemma TrimEmptyIffAllWhitespace(s: string)
    ensures Trim(s) == [] <==> forall k :: 0 <= k < |s| ==> IsWhitespace(s[k])
  {
    var t := TrimStart(s);
    if Trim(s) == [] {
      forall k | 0 <= k < |s|
        ensures IsWhitespace(s[k])
      {
        if k >= |s| - |t| {
          assert s[k] == t[k - (|s| - |t|)];
        }
      }
    } else {
      assert Trim(s)[0] == t[0];
      assert t[0] == s[|s| - |t|];
    }
  }

  /** The condition `!block || block.trim().length === 0`: unset, empty or white space only. */
  predicate Blank(block: Option<string>)
  {
    block.None? || |Trim(block.value)| == 0
  }

  /** The block as shown when it is not replaced by a default: `block || ""`. */
  function OrEmpty(block: Option<string>): (r: string)
    ensures r == [] <==> block.None? || block.value == []
    ensures r != [] ==> block == Some(r)
  {
    if block.Some? then block.value else []
  }

  /** `parseInt(String(timer_time || 900), 10)` for an integer setting: 0 and unset both mean 900. */
  function TimerTime(timerTime: Option<int>): (r: int)
    ensures r != 0
    ensures timerTime.None? ==> r == DefaultTimer
    ensures timerTime.Some? ==> r == if timerTime.value == 0 then DefaultTimer else timerTime.value
  {
    if timerTime.None? || timerTime.value == 0 then DefaultTimer else timerTime.value
  }

  /**
   * The defaulting rules: the two translated defaults replace both blocks when
   * both are blank, and otherwise each block is shown as configured.
   */
  function Resolve(config: Config, default1: string, default2: string): (r: Resolved)
    ensures r.timer == TimerTime(config.timerTime)
    ensures Blank(config.textBlock) && Blank(config.textBlock2) ==> r.text == default1 && r.text2 == default2
    ensures !(Blank(config.textBlock) && Blank(config.textBlock2)) ==>
              r.text == OrEmpty(config.textBlock) && r.text2 == OrEmpty(config.textBlock2)
  {
    var bothEmpty := Blank(config.textBlock) && Blank(config.textBlock2);
    Resolved(
      if bothEmpty then default1 else OrEmpty(config.textBlock),
      if bothEmpty then default2 else OrEmpty(config.textBlock2),
      TimerTime(config.timerTime))
  }

  /** The reference reading of "empty or white space only": unset, or no character other than white space. */
  predicate AllWhitespace(block: Option<string>)
  {
    block.None? || forall k :: 0 <= k < |block.value| ==> IsWhitespace(block.value[k])
  }

  /** The trimming test and the reference reading agree on every block. */
  lemma {:induction false} BlankIffAllWhitespace(block: Option<string>)
    ensures Blank(block) <==> AllWhitespace(block)
  {
    if block.Some? {
      TrimEmptyIffAllWhitespace(block.value);
    }
  }

  /**
   * The translated defaults replace both blocks exactly when both blocks are
   * unset or white space only; otherwise each block is shown as configured,
   * an unset one as the empty string.
   */
  lemma {:induction false} DefaultsIffBothWhitespace(config: Config, default1: string, default2: string)
    ensures var r := Resolve(config, default1, default2);
            AllWhitespace(config.textBlock) && AllWhitespace(config.textBlock2) ==>
              r.text == default1 && r.text2 == default2
    ensures var r := Resolve(config, default1, default2);
            !(AllWhitespace(config.textBlock) && AllWhitespace(config.textBlock2)) ==>
              r.text == OrEmpty(config.textBlock) && r.text2 == OrEmpty(config.textBlock2)
  {
    BlankIffAllWhitespace(config.textBlock);
    BlankIffAllWhitespace(config.textBlock2);
  }

  /** Resolving is idempotent: feeding the shown values back as settings shows the same banner. */
  lemma {:induction false} ResolveIdempotent(config: Config, default1: string, default2: string)
    ensures var r := Resolve(config, default1, default2);
            Resolve(Config(Some(r.text), Some(r.text2), Some(r.timer)), default1, default2) == r
  {
  }

  /** A missing or zero duration starts a running countdown; only an explicitly negative one starts none. */
  lemma TimerStartsUnlessNegative(timerTime: Option<int>)
    ensures TimerTime(timerTime) > 0 <==> timerTime.None? || timerTime.value >= 0
  {
  }
}
