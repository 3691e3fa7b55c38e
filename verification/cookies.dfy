/** Cookie records and categories shared by the content script, the popup and the
    background worker. Each of them classifies cookies with its own rules. */
module Cookies {

  /** The four cookie categories, named as the source names its buckets. */
  datatype Category = Essential | Analytics | Advertising | Functional

  /** A cookie as the browser's cookies API reports it, reduced to the fields read. */
  datatype BrowserCookie = BrowserCookie(
    name: string,
    domain: string,
    path: string,
    secure: bool,
    httpOnly: bool,
    sameSite: string
  )

  /** Analytics and advertising cookies are the tracking categories. */
  predicate IsTrackingCategory(c: Category) {
    c == Analytics || c == Advertising
  }
}
