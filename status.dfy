/** The schedule status values the scripts compare against. */
module Status {

  /** `'欠席'`: the student will not attend. */
  const Absent: string := "欠席"

  /** `'通常'`: an ordinary, regular booking. */
  const Regular: string := "通常"

  /** `'振替'`: a makeup lesson moved from another day. */
  const Makeup: string := "振替"
}
