/** The script's build-time configuration and the literal markers it tests for. */
module Config {

  /** The value written into every score field. */
  const TargetScore: string := "10"

  /** Seconds the detail page counts down before the first submission. */
  const BaseWaitSeconds: nat := 63

  /** The remaining-seconds value at which the midway correction is triggered. */
  const CorrectionSecond: nat := 30

  /** Submissions allowed before the retry loop gives up. */
  const MaxRetries: nat := 10

  /** The sentence-final full stop the correction restores. */
  const FullStop: string := "。"

  /** A URL holding this still denotes the evaluation detail page. */
  const DetailMarker: string := "evaluationPage"

  /** A URL holding this denotes the evaluation list page. */
  const ListMarker: string := "evaluation/index"

  /** The status-cell text of a course not yet evaluated. */
  const NotEvaluated: string := "否"

  /** The canned comments the fill chooses from. */
  const Comments: seq<string> := [
    "老师教学认真，课堂气氛活跃，收获很大。",
    "课程内容充实，老师讲解清晰，非常满意。",
    "老师治学严谨，要求严格，能深入浅出地进行教学。",
    "教学内容丰富，理论联系实际，激发了我的学习兴趣。",
    "老师备课充分，讲解精辟，重点突出，善于调动课堂气氛。"
  ]
}
