/** `sendEmail` in src/services/websiteMonitor.js: best-effort notification.
    The transport is an oracle saying whether it accepted the message. */
module Notifier {
  import opened Fetcher

  /** The `EMAIL_FROM`, `EMAIL_TO` and `EMAIL_APP_PASSWORD` settings; a
      setting that is not set is the empty string. */
  datatype EmailConfig = EmailConfig(from: string, to: string, password: string)

  /** All three settings are present (none is falsy). */
  predicate Configured(c: EmailConfig)
  {
    c.from != "" && c.to != "" && c.password != ""
  }

  /** The three messages the monitor sends. */
  datatype Message =
    | Added                        // the site was registered
    | ContentChanged               // a change was detected
    | CheckError(error: FetchError)  // the check threw, with its error

  /** What became of one call of `sendEmail`. */
  datatype Delivery =
    | Skipped          // configuration missing: nothing was sent
    | Delivered        // the transport accepted the message
    | TransportFailed  // the transport threw; the error was caught and logged

  /** One call of `sendEmail`: to which site, with which message, and its fate. */
  datatype Notice = Notice(url: string, message: Message, delivery: Delivery)

  /** `sendEmail(url, message)`. It has no error result: whatever the
      transport does, the caller gets a notice back and nothing else. */
  function Dispatch(config: EmailConfig, transportOk: bool, url: string, message: Message): (n: Notice)
    ensures n.url == url && n.message == message
    ensures n.delivery == Skipped <==> !Configured(config)
    ensures n.delivery == Delivered <==> Configured(config) && transportOk
    ensures n.delivery == TransportFailed <==> Configured(config) && !transportOk
  {
    Notice(url, message,
      if !Configured(config) then Skipped
      else if transportOk then Delivered
      else TransportFailed)
  }

  /** Without configuration `sendEmail` sends nothing, whatever the transport
      would have done; with it, the transport alone decides between delivered
      and a failure that is reported, not raised. */
  lemma DispatchBestEffort(config: EmailConfig, url: string, message: Message)
    ensures !Configured(config) ==> Dispatch(config, true, url, message) == Dispatch(config, false, url, message)
    ensures Configured(config) ==>
      Dispatch(config, true, url, message).delivery == Delivered &&
      Dispatch(config, false, url, message).delivery == TransportFailed
  {
  }
}
