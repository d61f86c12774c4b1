/** The part of the Slack message with content: the job description, cut to a bounded length. */
module Slack {

  /** Characters of tweet text shown before cutting. */
  const DescriptionLimit: nat := 500

  /** Marker appended when the text was cut. */
  const Ellipsis: string := "..."

  /** Bold label that precedes the description in its message section. */
  const DescriptionLabel: string := "*Job Description:*\n"

  /** `text[:500]`, followed by `...` when the text is longer than 500 characters. */
  function DescriptionBody(text: string): (r: string)
    ensures |r| <= DescriptionLimit + |Ellipsis|
    ensures |text| <= DescriptionLimit ==> r == text
    ensures |text| > DescriptionLimit ==>
      |r| == DescriptionLimit + |Ellipsis| && r[..DescriptionLimit] == text[..DescriptionLimit] && r[DescriptionLimit..] == Ellipsis
  {
    var cut := if |text| <= DescriptionLimit then text else text[..DescriptionLimit];
    cut + (if |text| > DescriptionLimit then Ellipsis else "")
  }

  /** The text of the description section. */
  function DescriptionField(text: string): (r: string)
    ensures |DescriptionLabel| <= |r| <= |DescriptionLabel| + DescriptionLimit + |Ellipsis|
    ensures r[..|DescriptionLabel|] == DescriptionLabel
    ensures r[|DescriptionLabel|..] == DescriptionBody(text)
  {
    DescriptionLabel + DescriptionBody(text)
  }

  /**
    Two texts get the same description exactly when they are equal or both
    longer than the limit and equal on its first 500 characters.
  */
  lemma DescriptionCollision(a: string, b: string)
    ensures DescriptionBody(a) == DescriptionBody(b) <==>
      a == b || (|a| > DescriptionLimit && |b| > DescriptionLimit && a[..DescriptionLimit] == b[..DescriptionLimit])
  {
    var da, db := DescriptionBody(a), DescriptionBody(b);
    if |a| > DescriptionLimit && |b| > DescriptionLimit && a[..DescriptionLimit] == b[..DescriptionLimit] {
      assert da == da[..DescriptionLimit] + da[DescriptionLimit..];
      assert db == db[..DescriptionLimit] + db[DescriptionLimit..];
    }
  }

  /**
    The description is the text itself exactly when the text is at most the
    limit long, or is already a cut description: 503 characters ending in `...`.
  */
  lemma DescriptionFixedPoints(text: string)
    ensures DescriptionBody(text) == text <==>
      |text| <= DescriptionLimit || (|text| == DescriptionLimit + |Ellipsis| && text[DescriptionLimit..] == Ellipsis)
  {
    if |text| == DescriptionLimit + |Ellipsis| && text[DescriptionLimit..] == Ellipsis {
      assert text == text[..DescriptionLimit] + text[DescriptionLimit..];
    }
  }
}
