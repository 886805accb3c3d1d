/**
 How the promise returned by the background script's `injectCss` settles.
 The browser's answers are oracle values: the first `insertCSS` result, the
 tab lookup made after the one-second back-off, and the retried `insertCSS`.
 An error thrown inside the `tabs.get` callback or the retry's `catch` does
 not reject the promise, so those paths never settle.
 */
module Injection {
  import opened Base

  datatype InsertResult = Inserted | InsertFailed(message: string)

  /** `chrome.tabs.get`: the tab (whose URL may be unknown) or `runtime.lastError`. */
  datatype TabLookup = TabFound(url: Option<string>) | TabLookupFailed

  /** What the browser answers to one injection, as far as it gets. */
  datatype Attempt = Attempt(first: InsertResult, lookup: TabLookup, retry: InsertResult)

  /**
   Resolved(applied) — the promise resolves; `applied` is false when the retry
   was skipped because the tab shows an extension page. Rejected — it rejects.
   NeverSettles — it stays pending forever.
   */
  datatype Settle = Resolved(applied: bool) | Rejected | NeverSettles

  /** Errors that earn one retry: the frame was not ready to be scripted. */
  predicate AccessError(message: string) {
    Contains(message, "permission") || Contains(message, "Cannot access contents")
  }

  /** A tab showing one of the extension's own pages, where CSS cannot be injected. */
  predicate ExtensionPage(url: Option<string>) {
    Present(url) && StartsWith(url.value, "chrome-extension://")
  }

  /** The number of `insertCSS` calls an attempt makes. */
  function InsertCalls(a: Attempt): (n: nat)
    ensures 1 <= n <= 2
    ensures n == 2 <==> a.first.InsertFailed? && AccessError(a.first.message)
                        && a.lookup.TabFound? && !ExtensionPage(a.lookup.url)
  {
    match a.first
    case Inserted => 1
    case InsertFailed(m) =>
      if AccessError(m) && a.lookup.TabFound? && !ExtensionPage(a.lookup.url) then 2 else 1
  }

  function Outcome(a: Attempt): (s: Settle)
    // a failure that is not an access error is passed to the caller
    ensures s.Rejected? <==> a.first.InsertFailed? && !AccessError(a.first.message)
    // CSS counts as applied only when one of at most two insertCSS calls succeeded
    ensures s == Resolved(true) <==>
              a.first.Inserted? || (InsertCalls(a) == 2 && a.retry.Inserted?)
    // the retry is skipped, without error, on an extension page
    ensures s == Resolved(false) <==>
              a.first.InsertFailed? && AccessError(a.first.message)
              && a.lookup.TabFound? && ExtensionPage(a.lookup.url)
    // errors thrown inside callbacks leave the promise pending
    ensures s.NeverSettles? ==> a.first.InsertFailed? && AccessError(a.first.message)
  {
    match a.first
    case Inserted => Resolved(true)
    case InsertFailed(m) =>
      if !AccessError(m) then Rejected
      else match a.lookup
        case TabLookupFailed => NeverSettles
        case TabFound(url) =>
          if ExtensionPage(url) then Resolved(false)
          else if a.retry.Inserted? then Resolved(true)
          else NeverSettles
  }
}
