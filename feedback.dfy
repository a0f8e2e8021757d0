/** The status line under the contact form: a text and its tone (`is-ok` or `is-error`). */
module Feedback {
  datatype Tone = OkTone | ErrorTone

  datatype Status = Status(text: string, tone: Tone)
}
