/**
 The feedback selector of the quiz results screen: a percentage falls into
 one of four tiers, and the caption is one of that tier's templates with its
 `{score}` placeholder filled in, next to one of the tier's meme images.
 The random picks of `getFeedbackForScore` become the choice indices
 `captionChoice` and `memeChoice`.
 */
module Feedback {

  import opened Text

  datatype Tier = Excellent | Good | Average | NeedsWork

  /** Position of a tier from worst (0) to best (3). */
  function Rank(t: Tier): nat {
    match t
    case NeedsWork => 0
    case Average => 1
    case Good => 2
    case Excellent => 3
  }

  /** The tier chosen for a percentage, trying the highest band first. */
  function TierOf(percentage: int): (t: Tier)
    ensures t == Excellent <==> 90 <= percentage
    ensures t == Good <==> 70 <= percentage < 90
    ensures t == Average <==> 50 <= percentage < 70
    ensures t == NeedsWork <==> percentage < 50
  {
    if percentage >= 90 then Excellent
    else if percentage >= 70 then Good
    else if percentage >= 50 then Average
    else NeedsWork
  }

  /** A better percentage never earns a worse tier. */
  lemma TierMonotone(p: int, q: int)
    requires p <= q
    ensures Rank(TierOf(p)) <= Rank(TierOf(q))
  {
  }

  /** The band edges. */
  lemma TierBoundaries()
    ensures TierOf(90) == Excellent && TierOf(95) == Excellent
    ensures TierOf(89) == Good && TierOf(70) == Good
    ensures TierOf(69) == Average && TierOf(50) == Average
    ensures TierOf(49) == NeedsWork && TierOf(0) == NeedsWork
  {
  }

  const ScorePlaceholder := "{score}"

  /** A caption template, held as the text before and after its single
      `{score}` placeholder. */
  datatype CaptionTemplate = CaptionTemplate(before: string, after: string) {
    function Text(): string {
      before + ScorePlaceholder + after
    }
  }

  /** The four caption templates of each tier. */
  function Captions(t: Tier): (cs: seq<CaptionTemplate>)
    ensures |cs| == 4
  {
    match t
    case Excellent => [
      CaptionTemplate("You scored ", "%! The AI thinks you might be the next Einstein."),
      CaptionTemplate("A perfect score of ", "%! Are you secretly a supercomputer?"),
      CaptionTemplate("", "%! You're on fire! \U{1F525}"),
      CaptionTemplate("Wow, ", "%! You've officially mastered this topic.")]
    case Good => [
      CaptionTemplate("", "% is a great score! Keep it up!"),
      CaptionTemplate("Nice work! You got ", "% correct."),
      CaptionTemplate("You're doing great with ", "%! Almost at the top!"),
      CaptionTemplate("A solid ", "%! You really know your stuff.")]
    case Average => [
      CaptionTemplate("You got ", "%. Not bad, but there's room to improve!"),
      CaptionTemplate("", "%... A valiant effort! Let's try again."),
      CaptionTemplate("You're halfway there with ", "%! Keep practicing."),
      CaptionTemplate("An average score of ", "%. You've got this, let's aim higher next time!")]
    case NeedsWork => [
      CaptionTemplate("Oof, ", "%. Don't worry, practice makes perfect!"),
      CaptionTemplate("Well, that's a start! You scored ", "%."),
      CaptionTemplate("It's fine, I'm fine, " + "everything is fine. You scored ", "%."),
      CaptionTemplate("Don't give up! You got ", "%. Let's review and try again.")]
  }

  /** The three meme images of each tier. */
  function Memes(t: Tier): (ms: seq<string>)
    ensures |ms| == 3
  {
    match t
    case Excellent => ["/memes/excellent_1.jpg", "/memes/excellent_2.jpg", "/memes/excellent_3.jpg"]
    case Good => ["/memes/good_1.png", "/memes/good_2.jpg", "/memes/good_3.png"]
    case Average => ["/memes/average_1.jpg", "/memes/average_2.gif", "/memes/average_3.jpg"]
    case NeedsWork => ["/memes/needsWork_1.jpeg", "/memes/needsWork_2.jpg", "/memes/needsWork_3.jpg"]
  }

  /** No template has a brace before its placeholder, so the placeholder is
      the template's first `{score}`. */
  lemma NoBraceBefore(t: Tier, c: nat)
    requires c < 4
    ensures '{' !in Captions(t)[c].before
  {
    match t
    case Excellent => NoBraceExcellent(c);
    case Good => NoBraceGood(c);
    case Average => NoBraceAverage(c);
    case NeedsWork => NoBraceNeedsWork(c);
  }

  lemma NoBraceExcellent(c: nat)
    requires c < 4
    ensures '{' !in Captions(Excellent)[c].before
  {
    if c == 0 { assert '{' !in "You scored "; }
    else if c == 1 { assert '{' !in "A perfect score of "; }
    else if c == 3 { assert '{' !in "Wow, "; }
  }

  lemma NoBraceGood(c: nat)
    requires c < 4
    ensures '{' !in Captions(Good)[c].before
  {
    if c == 1 { assert '{' !in "Nice work! You got "; }
    else if c == 2 { assert '{' !in "You're doing great with "; }
    else if c == 3 { assert '{' !in "A solid "; }
  }

  lemma NoBraceAverage(c: nat)
    requires c < 4
    ensures '{' !in Captions(Average)[c].before
  {
    if c == 0 { assert '{' !in "You got "; }
    else if c == 2 { assert '{' !in "You're halfway there with "; }
    else if c == 3 { assert '{' !in "An average score of "; }
  }

  lemma NoBraceNeedsWork(c: nat)
    requires c < 4
    ensures '{' !in Captions(NeedsWork)[c].before
  {
    if c == 0 { assert '{' !in "Oof, "; }
    else if c == 1 { assert '{' !in "Well, that's a start! You scored "; }
    else if c == 2 { assert '{' !in "It's fine, I'm fine, " && '{' !in "everything is fine. You scored "; }
    else { assert '{' !in "Don't give up! You got "; }
  }

  datatype FeedbackResult = FeedbackResult(caption: string, meme: string)

  /** `getFeedbackForScore`: the chosen tier's template `captionChoice` with
      its placeholder replaced by the percentage's decimal text, and the
      tier's meme `memeChoice`. */
  function FeedbackForScore(percentage: int, captionChoice: nat, memeChoice: nat): (r: FeedbackResult)
    requires captionChoice < 4 && memeChoice < 3
    ensures var template := Captions(TierOf(percentage))[captionChoice];
      r.caption == template.before + IntToDecimal(percentage) + template.after
    ensures r.meme == Memes(TierOf(percentage))[memeChoice]
  {
    var tier := TierOf(percentage);
    var template := Captions(tier)[captionChoice];
    NoBraceBefore(tier, captionChoice);
    ReplaceAfterPrefix(template.before, ScorePlaceholder, template.after, IntToDecimal(percentage));
    FeedbackResult(
      ReplaceFirst(template.Text(), ScorePlaceholder, IntToDecimal(percentage)),
      Memes(tier)[memeChoice])
  }
}
