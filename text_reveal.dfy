/**
 * The text reveal engine (components/decrypted-text.jsx).
 *
 * `outputText` grows by one character of `text` per interval tick until it
 * equals `text`; the rest of the text is shown as a mask of random glyphs
 * recomputed on every render and never stored. The interval timer is
 * abstracted to calls of `Tick`, the random generator to an unconstrained
 * choice over the mask alphabet. `text` is fixed for the life of a component.
 */
module TextReveal {
  import opened Wrappers

  /** The mask alphabet. */
  const Chars: string := "-_~`!@#$%^&*()+=[]{}|;:,.<>?"

  /** Tick interval in ms when the `interval` prop is omitted. */
  const DefaultInterval: int := 50

  /** The `interval = 50` default parameter: applies only when the prop is absent. */
  function IntervalOrDefault(interval: Option<int>): (ms: int)
    ensures interval.None? ==> ms == DefaultInterval
    ensures interval.Some? ==> ms == interval.value
  {
    match interval
    case None => DefaultInterval
    case Some(given) => given
  }

  /**
   * One tick applied to `prev` for the fixed `text`: while shorter than the
   * text, append `text[prev.length]`; otherwise nothing changes.
   */
  function Step(text: string, prev: string): (next: string)
    ensures |prev| < |text| ==> |next| == |prev| + 1 && next[..|prev|] == prev && next[|prev|] == text[|prev|]
    ensures |prev| >= |text| ==> next == prev
    ensures prev <= text ==> next <= text
  {
    if |prev| < |text| then prev + [text[|prev|]] else prev
  }

  /**
   * `outputText` after `n` ticks, starting from `out`: it only grows, stays
   * a prefix of the text when it starts as one, and gains one character per
   * tick until it is as long as the text.
   */
  function Ticks(text: string, out: string, n: nat): (result: string)
    ensures out <= result
    ensures out <= text ==> result <= text
    ensures |out| >= |text| ==> result == out
    ensures |out| < |text| ==> |result| == if |out| + n <= |text| then |out| + n else |text|
    decreases n
  {
    if n == 0 then out else Ticks(text, Step(text, out), n - 1)
  }

  /**
   * From any prefix of the text, `n` ticks reveal exactly `n` more
   * characters of it, stopping at the full text.
   */
  lemma {:induction false} TicksReveal(text: string, out: string, n: nat)
    requires out <= text
    ensures Ticks(text, out, n) == text[..if |out| + n <= |text| then |out| + n else |text|]
    decreases n
  {
    if n == 0 {
      assert out == text[..|out|];
    } else {
      TicksReveal(text, Step(text, out), n - 1);
    }
  }

  /** Starting from "", exactly `|text|` ticks reveal the whole text, and no fewer do. */
  lemma RevealCompletes(text: string, n: nat)
    ensures Ticks(text, "", |text|) == text
    ensures n < |text| ==> Ticks(text, "", n) != text
  {
    TicksReveal(text, "", |text|);
    TicksReveal(text, "", n);
  }

  /** A completed reveal is terminal: further ticks change nothing. */
  lemma {:induction false} RevealIsTerminal(text: string, n: nat)
    ensures Ticks(text, text, n) == text
  {
    TicksReveal(text, text, n);
  }

  /** One `TextEncrypted` component instance. */
  class TextEncrypted {
    /** The `text` prop, fixed for this instance. */
    const text: string
    /** The `interval` prop, with its default applied. */
    const interval: int
    /** The revealed part of the text. */
    var outputText: string
    /** Set by the mount effect; until then a placeholder is rendered. */
    var isMounted: bool

    /** The revealed part is always a prefix of the text. */
    ghost predicate Valid()
      reads this
    {
      outputText <= text
    }

    constructor (text: string, interval: Option<int>)
      ensures Valid()
      ensures this.text == text && this.interval == IntervalOrDefault(interval)
      ensures outputText == "" && !isMounted
    {
      this.text := text;
      this.interval := IntervalOrDefault(interval);
      outputText := "";
      isMounted := false;
    }

    /** The reveal effect starts an interval exactly while the reveal is incomplete. */
    function TimerStarted(): (started: bool)
      reads this
      ensures Valid() ==> (started <==> |outputText| < |text|)
    {
      outputText != text
    }

    /** The mount effect. */
    method Mount()
      modifies this
      ensures isMounted
      ensures outputText == old(outputText)
    {
      isMounted := true;
    }

    /**
     * One interval tick: while incomplete, append the next character of the
     * text; once complete, append nothing and clear the interval.
     */
    method Tick() returns (cleared: bool)
      requires Valid()
      modifies this
      ensures Valid()
      ensures isMounted == old(isMounted)
      ensures outputText == Step(text, old(outputText))
      ensures cleared <==> |old(outputText)| >= |text|
    {
      if |outputText| < |text| {
        outputText := outputText + [text[|outputText|]];
        cleared := false;
      } else {
        cleared := true;
      }
    }

    /**
     * The mask for the unrevealed suffix: as many glyphs as characters remain,
     * each chosen freely from the alphabet; "" once the reveal is complete.
     */
    method Remainder() returns (mask: string)
      ensures |mask| == if |outputText| < |text| then |text| - |outputText| else 0
      ensures forall i :: 0 <= i < |mask| ==> mask[i] in Chars
    {
      mask := "";
      if |outputText| < |text| {
        var rest := text[|outputText|..];
        var i := 0;
        while i < |rest|
          invariant 0 <= i <= |rest| && |mask| == i
          invariant forall j :: 0 <= j < i ==> mask[j] in Chars
        {
          var pick :| 0 <= pick < |Chars|;
          mask := mask + [Chars[pick]];
          i := i + 1;
        }
      }
    }

    /**
     * What the component shows: a one-space placeholder before mount,
     * afterwards the revealed text followed by the mask, which together are
     * exactly as long as the text and equal to it once the reveal completes.
     */
    method Render() returns (shown: string)
      requires Valid()
      ensures !isMounted ==> shown == " "
      ensures isMounted ==> |shown| == |text| && shown[..|outputText|] == outputText
      ensures isMounted ==> forall i :: |outputText| <= i < |shown| ==> shown[i] in Chars
      ensures isMounted && outputText == text ==> shown == text
    {
      var mask := Remainder();
      if !isMounted {
        return " ";
      }
      shown := outputText + mask;
    }
  }
}
