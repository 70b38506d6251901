/**
 * The two pure helpers of client/src/components/PostCard.jsx: the reading
 * time shown on a card and text truncation. Date formatting and rendering
 * are not modelled.
 */
module PostCard {
  import opened Text
  import PostModel

  /** `getReadingTime`: `Math.ceil(content.split(' ').length / 200)`. */
  function GetReadingTime(content: string): (minutes: nat)
    ensures minutes >= 1
  {
    var words := CountChar(content, ' ') + 1;
    if words % 200 == 0 then words / 200 else words / 200 + 1
  }

  /** The card shows the same reading time as the post model's `estimatedReadingTime`. */
  lemma {:induction false} ReadingTimeMatchesModel(content: string)
    ensures GetReadingTime(content) == PostModel.EstimatedReadingTime(content)
  {
  }

  const DefaultMaxLength: nat := 150

  /**
   * `truncateText(text, maxLength)`: the text itself when it is short enough,
   * otherwise its first `maxLength` characters followed by "...".
   */
  function TruncateText(text: string, maxLength: nat): (r: string)
    ensures |text| <= maxLength ==> r == text
    ensures |text| > maxLength ==> |r| == maxLength + 3 && r[maxLength..] == "..."
    ensures |text| > maxLength ==> r[..maxLength] == text[..maxLength]
    ensures |r| <= maxLength + 3
  {
    if |text| <= maxLength then text else text[..maxLength] + "..."
  }

  /** With the default limit every card text is at most 153 characters. */
  lemma {:induction false} DefaultTruncationBound(text: string)
    ensures |TruncateText(text, DefaultMaxLength)| <= 153
  {
  }
}
