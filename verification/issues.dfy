/** What rules report: an issue is a message at a source range. */
module Issues {
  import opened Wrappers
  import opened Syntax

  /** Messages are fixed texts, except the comment-ratio message, whose two
      percentages Go prints with `%.0f` (kept here as the exact ratios). */
  datatype Message = Text(text: string) | CommentRatio(ratio: real, threshold: real)

  datatype Issue = Issue(msg: Message, rng: Range)

  /** What a rule's `Check` leaves behind: the issues it emitted, and whether
      it returned an error. Issues emitted before the error stay emitted. */
  datatype Outcome = Outcome(issues: seq<Issue>, failed: bool)

  /** The two code generations: the package-per-rule one and the older flat
      one. */
  datatype Gen = Current | Legacy

  /** An optional `enabled` flag: unset counts as true. */
  predicate Enabled(flag: Option<bool>) {
    flag.None? || flag.value
  }

  function TextIssue(text: string, rng: Range): (r: Issue)
    ensures r.msg.Text? && r.msg.text == text && r.rng == rng
  {
    Issue(Text(text), rng)
  }
}
