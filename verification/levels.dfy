/**
 The choice between the two summary lengths. The command line asks for a
 compression level; `strong` asks the summariser for `SentencesCount`
 sentences, `weak` for twice as many, and any other answer is refused before
 anything is summarised.
 */
module Levels {

  /** The base number of summary sentences. */
  const SentencesCount: nat := 5

  /** The two compression levels. */
  datatype Level = Strong | Weak

  /** A level choice, or the refusal that names the unknown level. */
  datatype Choice<T> = Chosen(value: T) | UnknownLevel(level: string)

  /** The word the user types for a level. */
  function Name(level: Level): string
  {
    match level
    case Strong => "strong"
    case Weak => "weak"
  }

  /** Reads the user's answer: only the exact words `strong` and `weak` are
      accepted, anything else is refused and reported back. */
  function ParseLevel(answer: string): (r: Choice<Level>)
    ensures r.Chosen? <==> answer == "strong" || answer == "weak"
    ensures r.Chosen? ==> Name(r.value) == answer
    ensures r.UnknownLevel? ==> r.level == answer
  {
    if answer == "strong" then Chosen(Strong)
    else if answer == "weak" then Chosen(Weak)
    else UnknownLevel(answer)
  }

  /** How many sentences the summariser is asked for at a level. */
  function SentenceCount(level: Level): (n: nat)
    ensures 0 < n
    ensures n % SentencesCount == 0
  {
    match level
    case Strong => SentencesCount
    case Weak => SentencesCount * 2
  }

  /** The whole decision: the user's answer to a sentence budget, or the
      refusal. */
  function RequestedSentences(answer: string): (r: Choice<nat>)
    ensures r.Chosen? <==> answer == "strong" || answer == "weak"
    ensures answer == "strong" ==> r == Chosen(5)
    ensures answer == "weak" ==> r == Chosen(10)
    ensures r.UnknownLevel? ==> r == UnknownLevel(answer)
  {
    match ParseLevel(answer)
    case Chosen(level) => Chosen(SentenceCount(level))
    case UnknownLevel(a) => UnknownLevel(a)
  }

  /** Parsing a level's own name gives the level back. */
  lemma ParseName(level: Level)
    ensures ParseLevel(Name(level)) == Chosen(level)
  {
  }

  /** Strong compression asks for strictly fewer sentences than weak, exactly
      half as many, and both ask for at least one. */
  lemma StrongShorterThanWeak()
    ensures 0 < SentenceCount(Strong) < SentenceCount(Weak)
    ensures SentenceCount(Weak) == 2 * SentenceCount(Strong)
  {
  }
}
