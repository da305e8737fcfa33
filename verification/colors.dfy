/** Terminal colour tokens. A colour is an opaque prefix string; colouring a
    span is the concatenation prefix + span + reset. */
module Colors {

  const Blue: string := "\U{1B}[94m"
  const Green: string := "\U{1B}[92m"
  const Red: string := "\U{1B}[91m"
  const Yellow: string := "\U{1B}[93m"
  const Cyan: string := "\U{1B}[96m"

  /** The reset sequence appended after every coloured span. */
  const Endc: string := "\U{1B}[0m"

  /** The palette `plot` cycles through when the caller gives none. */
  const DefaultPalette: seq<string> := [Blue, Green, Red, Yellow, Cyan]

  /** `tcolors.c(color, text)`. */
  function Wrap(color: string, text: string): (r: string)
    ensures |r| == |color| + |text| + |Endc|
  {
    color + text + Endc
  }

  /** Removes a `color` prefix and the reset suffix when both are present. */
  function Strip(color: string, s: string): string
  {
    if |s| >= |color| + |Endc| && s[..|color|] == color && s[|s| - |Endc|..] == Endc
    then s[|color|..|s| - |Endc|]
    else s
  }

  /** Colouring is undone by stripping the same colour. */
  lemma StripWrap(color: string, text: string)
    ensures Strip(color, Wrap(color, text)) == text
  {
    var s := Wrap(color, text);
    assert s[..|color|] == color && s[|s| - |Endc|..] == Endc;
    assert s[|color|..|s| - |Endc|] == text;
  }

  /** A coloured span is never shorter than the reset sequence plus one, so
      a single coloured character is never a one-character string. */
  lemma WrapIsLong(color: string, text: string)
    requires |text| >= 1
    ensures |Wrap(color, text)| > 1
  {
  }
}
