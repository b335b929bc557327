/** What a page handler leaves on screen: the error line and the output
    pane. An empty `error` means no error is shown. */
module PageState {
  datatype View = View(error: string, output: string)
}
