/** The classifier (`determine_value`) and the annotator (`add_comment`):
    a joined row gets a two-digit outcome code and a diagnostic comment. */
module Classifier {
  import opened Tables
  import opened Catalogue

  /** The sales channels that bypass the recognition model. */
  const InternetSolutions := "ИНТЕРНЕТ РЕШЕНИЯ"
  const Marketplace := "МАРКЕТПЛЕЙС"
  const Wildberries := "ВАЙЛДБЕРРИЗ"
  const Yandex := "ЯНДЕКС"
  const Channels: seq<string> := [InternetSolutions, Marketplace, Wildberries, Yandex]

  /** The outcome codes: the first digit says a catalogue match was found,
      the second that it was correct (or, without a match, that the row's
      channel bypasses the model). */
  const Correct := "1_1"
  const Incorrect := "1_0"
  const Bypassed := "0_1"
  const NotRecognized := "0_0"
  const Codes: set<string> := {Correct, Incorrect, Bypassed, NotRecognized}

  /** The comments of the three codes that need one. */
  const IncorrectComment := "неправильно распознали sku"
  const NotRecognizedComment := "не распознали sku"
  const BypassComment := "не проходит через нейросеть (отключено)"

  /** `response` is one of the special channels; a null `response` never is. */
  predicate InChannels(response: Cell)
  {
    response.Some? && response.value in Channels
  }

  /** `determine_value`: the outcome code of a joined row. A non-null
      `corr_sku` decides alone; only without one is the channel consulted. */
  function DetermineValue(j: Joined): (v: string)
    ensures v in Codes && |v| == 3
    ensures v[0] == '1' <==> j.corrSku.Some?
    ensures j.corrSku.Some? ==> (v[2] == '1' <==> j.row.sku == j.corrSku)
    ensures j.corrSku.None? ==> (v[2] == '1' <==> InChannels(j.row.response))
  {
    if j.corrSku.Some? then
      if j.row.sku == j.corrSku then Correct else Incorrect
    else
      if InChannels(j.row.response) then Bypassed else NotRecognized
  }

  /** `add_comment`: the diagnostic comment of an outcome code. Among the
      legal codes it is empty exactly for a correct match; any other string
      gets the empty comment too. */
  function AddComment(value: string): (c: string)
    ensures value in Codes ==> (c == "" <==> value == Correct)
    ensures value !in Codes ==> c == ""
    ensures c == BypassComment <==> value == Bypassed
  {
    if value == Incorrect then IncorrectComment
    else if value == NotRecognized then NotRecognizedComment
    else if value == Bypassed then BypassComment
    else ""
  }

  /** The comment identifies the outcome code: no two legal codes share one. */
  lemma CommentDeterminesCode(v: string, w: string)
    requires v in Codes && w in Codes
    requires AddComment(v) == AddComment(w)
    ensures v == w
  {
  }
}
