/**
 * Quick labels (`QuickHighlighter`): a fixed bank of nine one-click colour
 * labels, and the normalisation that gives the bank exactly nine entries
 * after loading.
 */
module QuickLabels {
  import opened Colors

  datatype QuickHighlighter = QuickHighlighter(name: string, foreColor: Color, backColor: Color, useInCycle: bool)

  /** The number of quick-label slots: the size of the default list. */
  const QuickLabelCount: nat := 9

  /** The number a string of decimal digits spells, most significant digit first. */
  function DecimalValue(s: string): (n: int)
    decreases |s|
  {
    if s == [] then 0 else DecimalValue(s[..|s| - 1]) * 10 + (s[|s| - 1] as int - '0' as int)
  }

  /** The decimal spelling of a natural number, as `QString::arg` writes it. */
  function NatToString(n: nat): (s: string)
    ensures |s| >= 1
    ensures forall i :: 0 <= i < |s| ==> '0' <= s[i] <= '9'
    ensures DecimalValue(s) == n
    ensures n < 10 ==> s == [(('0' as int) + n) as char]
    decreases n
  {
    var digit := (('0' as int) + n % 10) as char;
    if n < 10 then [digit]
    else
      var prefix := NatToString(n / 10);
      assert (prefix + [digit])[..|prefix + [digit]| - 1] == prefix;
      prefix + [digit]
  }

  /**
   * The built-in labels, in their fixed order (names are the untranslated
   * texts; `Qt::gray` is `Gray`): nine of them, all in the cycle, the last
   * with no foreground of its own on a grey background.
   */
  function DefaultLabels(): (r: seq<QuickHighlighter>)
    ensures |r| == QuickLabelCount
    ensures forall i :: 0 <= i < |r| ==> r[i].useInCycle
    ensures r[QuickLabelCount - 1].foreColor == Invalid && r[QuickLabelCount - 1].backColor == Gray
  {
    [
      QuickHighlighter("Color label 1", Rgba(255, 0x00, 0x1e, 0x80), Rgba(255, 0xa1, 0xb7, 0xff), true),
      QuickHighlighter("Color label 2", Rgba(255, 0x80, 0x00, 0x5d), Rgba(255, 0xff, 0xa1, 0xc6), true),
      QuickHighlighter("Color label 3", Rgba(255, 0x0f, 0x80, 0x00), Rgba(255, 0xac, 0xff, 0xa1), true),
      QuickHighlighter("Color label 4", Rgba(255, 0x80, 0x60, 0x00), Rgba(255, 0xff, 0xe8, 0xa1), true),
      QuickHighlighter("Color label 5", Rgba(255, 0x42, 0x00, 0x80), Rgba(255, 0xd2, 0xa1, 0xff), true),
      QuickHighlighter("Color label 6", Rgba(255, 0x00, 0x7f, 0x80), Rgba(255, 0xa1, 0xfe, 0xff), true),
      QuickHighlighter("Color label 7", Rgba(255, 0x00, 0x4e, 0x80), Rgba(255, 0xa1, 0xdb, 0xff), true),
      QuickHighlighter("Color label 8", Rgba(255, 0x12, 0x00, 0x80), Rgba(255, 0xa2, 0x9c, 0xcf), true),
      QuickHighlighter("Color label 9", Invalid, Gray, true)
    ]
  }

  /** The foreground colours of labels 1 to 4 are the ones their "#rrggbb" spellings denote. */
  lemma DefaultForeColors1To4()
    ensures DefaultLabels()[0].foreColor == ParseColor("#001e80")
    ensures DefaultLabels()[1].foreColor == ParseColor("#80005D")
    ensures DefaultLabels()[2].foreColor == ParseColor("#0f8000")
    ensures DefaultLabels()[3].foreColor == ParseColor("#806000")
  {
  }

  /** The foreground colours of labels 5 to 8 are the ones their "#rrggbb" spellings denote. */
  lemma DefaultForeColors5To8()
    ensures DefaultLabels()[4].foreColor == ParseColor("#420080")
    ensures DefaultLabels()[5].foreColor == ParseColor("#007f80")
    ensures DefaultLabels()[6].foreColor == ParseColor("#004e80")
    ensures DefaultLabels()[7].foreColor == ParseColor("#120080")
  {
  }

  /** The background colours of labels 1 to 4 are the ones their "#rrggbb" spellings denote. */
  lemma DefaultBackColors1To4()
    ensures DefaultLabels()[0].backColor == ParseColor("#a1b7ff")
    ensures DefaultLabels()[1].backColor == ParseColor("#ffa1c6")
    ensures DefaultLabels()[2].backColor == ParseColor("#acffa1")
    ensures DefaultLabels()[3].backColor == ParseColor("#ffe8a1")
  {
  }

  /** The background colours of labels 5 to 8 are the ones their "#rrggbb" spellings denote. */
  lemma DefaultBackColors5To8()
    ensures DefaultLabels()[4].backColor == ParseColor("#d2a1ff")
    ensures DefaultLabels()[5].backColor == ParseColor("#a1feff")
    ensures DefaultLabels()[6].backColor == ParseColor("#a1dbff")
    ensures DefaultLabels()[7].backColor == ParseColor("#a29ccf")
  {
  }

  /** Every default label is named "Color label k" for its slot k and takes part in cycling. */
  lemma {:induction false} DefaultLabelNames()
    ensures |DefaultLabels()| == QuickLabelCount
    ensures forall i :: 0 <= i < |DefaultLabels()| ==>
              DefaultLabels()[i].name == "Color label " + NatToString(i + 1) && DefaultLabels()[i].useInCycle
  {
    forall i | 0 <= i < |DefaultLabels()|
      ensures DefaultLabels()[i].name == "Color label " + NatToString(i + 1)
    {
      assert NatToString(i + 1) == [(('0' as int) + i + 1) as char];
    }
  }

  /** The bank after loading: the stored labels padded with the defaults of the missing slots, or cut to nine. */
  function NormalizedLabels(stored: seq<QuickHighlighter>): (r: seq<QuickHighlighter>)
  {
    if |stored| < |DefaultLabels()| then stored + DefaultLabels()[|stored|..]
    else stored[..|DefaultLabels()|]
  }

  /**
   * Exactly nine labels: the first min(k, 9) of the k stored ones, then the
   * defaults for the remaining slots in their fixed order.
   */
  lemma NormalizedLabelsShape(stored: seq<QuickHighlighter>)
    ensures |NormalizedLabels(stored)| == QuickLabelCount
    ensures forall i :: 0 <= i < QuickLabelCount && i < |stored| ==> NormalizedLabels(stored)[i] == stored[i]
    ensures forall i :: |stored| <= i < QuickLabelCount ==> NormalizedLabels(stored)[i] == DefaultLabels()[i]
  {
  }
}
