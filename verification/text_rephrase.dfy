/**
 * The Text Rephrase panel's three canned rewrites: a friendly wrapper that
 * turns every full stop into an exclamation mark, a formal letter wrapper,
 * and a summary that keeps the first fifteen space-separated words.
 */
module TextRephrase {
  import opened Strings

  datatype Style = Friendly | Professional | Summarize

  /** The panel's input box and output box. */
  datatype Panel = Panel(input: string, output: string)

  const FriendlyOpening := "Hey there! \U{1F60A} "
  const FriendlyClosing := " Hope this helps!"
  const Salutation := "Dear Sir/Madam,\n\n"
  const SignOff := "\n\nBest regards,"
  const Ellipsis := "..."
  const SummaryWords := 15

  /** The friendly rewrite: the input with every '.' turned into '!', between a greeting and a closing line. */
  function FriendlyText(s: string): (r: string)
    ensures |r| == |FriendlyOpening| + |s| + |FriendlyClosing|
    ensures r[..|FriendlyOpening|] == FriendlyOpening
    ensures r[|FriendlyOpening| + |s|..] == FriendlyClosing
    ensures forall i :: 0 <= i < |s| ==> r[|FriendlyOpening| + i] == (if s[i] == '.' then '!' else s[i])
    ensures '.' !in r
  {
    var body := ReplaceChar(s, '.', '!');
    var r := FriendlyOpening + body + FriendlyClosing;
    assert r[..|FriendlyOpening|] == FriendlyOpening;
    assert r[|FriendlyOpening| + |s|..] == FriendlyClosing;
    r
  }

  /** The text between the friendly greeting and closing is the input itself when it has no full stop. */
  lemma FriendlyKeepsOtherText(s: string)
    requires '.' !in s
    ensures FriendlyText(s)[|FriendlyOpening|..|FriendlyOpening| + |s|] == s
  {
    var r := FriendlyText(s);
    var mid := r[|FriendlyOpening|..|FriendlyOpening| + |s|];
    forall i | 0 <= i < |s| ensures mid[i] == s[i] {
      assert mid[i] == r[|FriendlyOpening| + i];
    }
  }

  /** The professional rewrite: the input verbatim between a salutation and a sign-off. */
  function ProfessionalText(s: string): (r: string)
    ensures |r| == |Salutation| + |s| + |SignOff|
    ensures r[..|Salutation|] == Salutation
    ensures r[|Salutation| + |s|..] == SignOff
    ensures r[|Salutation|..|Salutation| + |s|] == s
  {
    var r := Salutation + s + SignOff;
    assert r[..|Salutation|] == Salutation;
    assert r[|Salutation| + |s|..] == SignOff;
    assert r[|Salutation|..|Salutation| + |s|] == s;
    r
  }

  /** Different inputs never get the same professional letter. */
  lemma ProfessionalInjective(s: string, t: string)
    requires ProfessionalText(s) == ProfessionalText(t)
    ensures s == t
  {
  }

  function Min(a: int, b: int): int {
    if a <= b then a else b
  }

  /** The words the summary keeps: `words.slice(0, Math.min(15, words.length))`. */
  function KeptWords(s: string): (r: seq<string>)
    ensures var words := Split(s, ' ');
      |r| == Min(SummaryWords, |words|) && r == words[..|r|]
    ensures |r| >= 1
  {
    var words := Split(s, ' ');
    words[..Min(SummaryWords, |words|)]
  }

  /** The summary: the kept words joined by single spaces, then "...". */
  function SummaryText(s: string): (r: string)
    ensures |r| >= |Ellipsis| && r[|r| - |Ellipsis|..] == Ellipsis
    ensures Split(r[..|r| - |Ellipsis|], ' ') == KeptWords(s)
    ensures IsPrefix(r[..|r| - |Ellipsis|], s)
  {
    var kept := KeptWords(s);
    var body := Join(kept, ' ');
    var r := body + Ellipsis;
    assert r[..|r| - |Ellipsis|] == body;
    assert r[|r| - |Ellipsis|..] == Ellipsis;
    SplitJoin(kept, ' ');
    JoinPrefix(Split(s, ' '), ' ', |kept|);
    r
  }

  /** Joining the first `k` pieces gives a prefix of joining them all. */
  lemma {:induction false} JoinPrefix(pieces: seq<string>, sep: char, k: nat)
    requires 1 <= k <= |pieces|
    ensures IsPrefix(Join(pieces[..k], sep), Join(pieces, sep))
    decreases k
  {
    if k == 1 {
      assert pieces[..1] == [pieces[0]];
      FirstPieceIsPrefix(pieces, sep);
    } else {
      var all := Join(pieces, sep);
      var part := Join(pieces[..k], sep);
      assert pieces[..k][1..] == pieces[1..][..k - 1];
      JoinPrefix(pieces[1..], sep, k - 1);
      var rest := Join(pieces[1..], sep);
      var restPart := Join(pieces[1..][..k - 1], sep);
      assert all == pieces[0] + [sep] + rest;
      assert part == pieces[0] + [sep] + restPart;
      assert rest[..|restPart|] == restPart;
      assert all[..|part|] == pieces[0] + [sep] + rest[..|restPart|];
    }
  }

  /** A text of at most fifteen words is summarised as itself followed by "...". */
  lemma ShortTextSummary(s: string)
    requires |Split(s, ' ')| <= SummaryWords
    ensures SummaryText(s) == s + Ellipsis
  {
    var words := Split(s, ' ');
    assert KeptWords(s) == words;
  }

  /** The rewrite of `s` in the chosen style. */
  function RephraseText(s: string, style: Style): string {
    match style
    case Friendly => FriendlyText(s)
    case Professional => ProfessionalText(s)
    case Summarize => SummaryText(s)
  }

  /**
   * `rephraseText`: a blank input leaves the panel as it was; otherwise the
   * output box shows the chosen rewrite of the input, whatever it showed
   * before, and the input box is kept.
   */
  function Rephrase(p: Panel, style: Style): (r: Panel)
    ensures r.input == p.input
    ensures IsBlank(p.input) ==> r == p
    ensures !IsBlank(p.input) ==> r.output == RephraseText(p.input, style)
  {
    if IsBlank(p.input) then p else Panel(p.input, RephraseText(p.input, style))
  }

  /**
   * The last style pressed decides the output; earlier presses leave no
   * trace, so pressing the same style twice is the same as pressing it once.
   */
  lemma LastStyleWins(p: Panel, first: Style, second: Style)
    ensures Rephrase(Rephrase(p, first), second) == Rephrase(p, second)
  {
  }
}
