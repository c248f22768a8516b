/**
 * `ReviewScheduler`: each tick normalises the fetched page, decides whether
 * the review counter changed since the last tick, and if so composes and
 * sends the notification. The file `review_data.txt` is the field `file`
 * (None while the file does not exist); which file-system and mail
 * operations fail is the field `faults`; every hand-over to the mail
 * transport is appended to `outbox`.
 *
 * The pure functions `Detect`, `Compose` and `TickSpec` say what one call
 * does to the file and the outbox; the methods of the class are proved
 * against them, and the lemmas at the end state what the source promises
 * about them.
 */
module Scheduler {
  import opened Wrappers
  import opened Normalizer
  import opened Mail

  /** The exceptions that leave the methods; `IOException`s never do. */
  datatype Exception =
    | NullPointer  // `outerHtml()` on the null that `selectFirst` returned
    | MailSend     // `send` refused the message (Spring's `MailException`)

  /**
   * The outer HTML of the first element matching `.mb-0.text-14.text-dark b`
   * (the review counter) and `.comment-content.box-text-content` (the newest
   * review) in a page, or None when nothing matches. Parsing and selection
   * belong to the HTML library and stay uninterpreted.
   */
  datatype Selectors = Selectors(counterOf: string -> Option<string>, detailOf: string -> Option<string>)

  /**
   * Which operations throw during a tick: reading the existing file,
   * creating or writing it, and sending the message.
   */
  datatype Faults = Faults(readFails: bool, writeFails: bool, sendFails: bool)

  /** One hand-over of a message to the transport, and whether it went through. */
  datatype Delivery = Delivery(email: Email, delivered: bool)

  /** `getReviewFileData`: the counter's markup, or the NullPointerException at line 127. */
  function GetReviewFileData(sel: Selectors, html: string): (r: Result<string, Exception>)
    ensures r.Success? <==> sel.counterOf(html).Some?
    ensures r.Success? ==> Some(r.value) == sel.counterOf(html)
    ensures r.Failure? ==> r.error == NullPointer
  {
    match sel.counterOf(html)
    case Some(c) => Success(c)
    case None => Failure(NullPointer)
  }

  /** The file after `saveToLocalStorage(content)`: replaced whole, or untouched if the write fails. */
  function Persist(file: Option<string>, writeFails: bool, content: string): (f: Option<string>)
    ensures f == Some(content) || (writeFails && f == file)
  {
    if writeFails then file else Some(content)
  }

  /** What `isNewReview` answers, and the file it leaves. */
  datatype Detection = Detection(verdict: Result<bool, Exception>, file: Option<string>)

  function Detect(file: Option<string>, faults: Faults, counter: Option<string>): (d: Detection)
    // "new" exactly on a first run that could create the file, or when the stored counter differs
    ensures d.verdict == Success(true) <==>
            || (file.None? && !faults.writeFails)
            || (file.Some? && !faults.readFails && counter.Some? && counter.value != file.value)
    // only a missing counter next to a readable file throws
    ensures d.verdict.Failure? <==> file.Some? && !faults.readFails && counter.None?
    ensures d.verdict.Failure? ==> d.verdict.error == NullPointer
    // the only change to the file is the creation of an empty one
    ensures d.file == if file.None? && !faults.writeFails then Some("") else file
  {
    match file
    case None =>
      if faults.writeFails then Detection(Success(false), None)
      else Detection(Success(true), Some(""))
    case Some(content) =>
      if faults.readFails then Detection(Success(false), file)
      else
        match counter
        case None => Detection(Failure(NullPointer), file)
        case Some(c) => Detection(Success(content != c), file)
  }

  /** What `extractReviewBox` returns, and the file it leaves. */
  datatype Composition = Composition(body: Result<string, Exception>, file: Option<string>)

  function Compose(sel: Selectors, html: string, file: Option<string>, writeFails: bool): (c: Composition)
    // a body exactly when the counter is there, and then it is the notification for the review
    ensures c.body.Success? <==> sel.counterOf(html).Some?
    ensures c.body.Success? ==> c.body.value == Body(sel.detailOf(html))
    // the counter replaces the whole file unless the write fails
    ensures c.body.Success? ==> c.file == Persist(file, writeFails, sel.counterOf(html).value)
    ensures c.body.Failure? ==> c.body.error == NullPointer && c.file == file
  {
    match sel.counterOf(html)
    case None => Composition(Failure(NullPointer), file)
    case Some(counter) => Composition(Success(Body(sel.detailOf(html))), Persist(file, writeFails, counter))
  }

  /** What one tick leaves in the file and hands to the transport. */
  datatype TickEffect = TickEffect(file: Option<string>, sent: seq<Delivery>)

  /**
   * `fetchAndProcessHtmlContent` for a fetch that gave `fetched`: None when
   * the request failed or the body was null, both of which throw before
   * anything else happens.
   */
  function TickSpec(sel: Selectors, file: Option<string>, faults: Faults, fetched: Option<string>): (e: TickEffect)
    ensures |e.sent| <= 1
    ensures e.sent != [] ==>
              && fetched.Some?
              && Detect(file, faults, sel.counterOf(ProcessHtmlContent(fetched.value))).verdict == Success(true)
  {
    match fetched
    case None => TickEffect(file, [])
    case Some(page) =>
      var html := ProcessHtmlContent(page);
      var d := Detect(file, faults, sel.counterOf(html));
      if d.verdict != Success(true) then TickEffect(d.file, [])
      else
        var c := Compose(sel, html, d.file, faults.writeFails);
        match c.body
        case Failure(_) => TickEffect(c.file, [])
        case Success(body) => TickEffect(c.file, [Delivery(Message(body), !faults.sendFails)])
  }

  /** A failed fetch ends the tick before anything else happens. */
  lemma FetchFailureDoesNothing(sel: Selectors, file: Option<string>, faults: Faults)
    ensures TickSpec(sel, file, faults, None) == TickEffect(file, [])
  {
  }

  /**
   * The first tick, with no file yet, reports "new" without looking at the
   * counter and creates an empty file; composing then sends one message
   * and overwrites the file with the counter, or throws if there is none.
   */
  lemma FirstRun(sel: Selectors, faults: Faults, page: string)
    requires !faults.writeFails
    ensures Detect(None, faults, None).verdict == Success(true)
    ensures var html := ProcessHtmlContent(page);
            Detect(None, faults, sel.counterOf(html)) == Detection(Success(true), Some(""))
    ensures var html := ProcessHtmlContent(page);
            var e := TickSpec(sel, None, faults, Some(page));
            match sel.counterOf(html)
            case Some(c) => e == TickEffect(Some(c), [Delivery(Message(Body(sel.detailOf(html))), !faults.sendFails)])
            case None => e == TickEffect(Some(""), [])
  {
  }

  /** A first tick that cannot create the file sends nothing and leaves no file. */
  lemma FirstRunCannotCreate(sel: Selectors, faults: Faults, page: string)
    requires faults.writeFails
    ensures TickSpec(sel, None, faults, Some(page)) == TickEffect(None, [])
  {
  }

  /** Stability means silence: a stored counter equal to the page's sends nothing and keeps the file. */
  lemma SameCounterIsSilent(sel: Selectors, stored: string, faults: Faults, page: string)
    requires sel.counterOf(ProcessHtmlContent(page)) == Some(stored)
    ensures TickSpec(sel, Some(stored), faults, Some(page)) == TickEffect(Some(stored), [])
  {
  }

  /**
   * Change means notify: a readable stored counter that differs from the
   * page's gives exactly one message, and the new counter is stored unless
   * the write fails.
   */
  lemma ChangedCounterNotifies(sel: Selectors, stored: string, faults: Faults, page: string)
    requires !faults.readFails
    requires var counter := sel.counterOf(ProcessHtmlContent(page)); counter.Some? && counter.value != stored
    ensures var html := ProcessHtmlContent(page);
            TickSpec(sel, Some(stored), faults, Some(page)) ==
            TickEffect(Persist(Some(stored), faults.writeFails, sel.counterOf(html).value),
                       [Delivery(Message(Body(sel.detailOf(html))), !faults.sendFails)])
  {
  }

  /** Fail closed: a file that cannot be read sends nothing and stays as it is. */
  lemma UnreadableFileIsSilent(sel: Selectors, stored: string, faults: Faults, fetched: Option<string>)
    requires faults.readFails
    ensures TickSpec(sel, Some(stored), faults, fetched) == TickEffect(Some(stored), [])
  {
  }

  /** A page without the counter never gets a message out; at most the empty file is created. */
  lemma MissingCounterIsSilent(sel: Selectors, file: Option<string>, faults: Faults, page: string)
    requires sel.counterOf(ProcessHtmlContent(page)).None?
    ensures TickSpec(sel, file, faults, Some(page)) == TickEffect(Detect(file, faults, None).file, [])
  {
  }

  /** A tick that sent a message stored the counter before handing the message over, unless the write failed. */
  lemma SentMeansPersisted(sel: Selectors, file: Option<string>, faults: Faults, page: string)
    requires TickSpec(sel, file, faults, Some(page)).sent != []
    ensures var e := TickSpec(sel, file, faults, Some(page));
            var html := ProcessHtmlContent(page);
            && sel.counterOf(html).Some?
            && e.sent[0].email == Message(Body(sel.detailOf(html)))
            && e.file == Persist(Detect(file, faults, sel.counterOf(html)).file, faults.writeFails, sel.counterOf(html).value)
  {
  }

  /**
   * No repeated notification: after a tick that sent a message and could
   * write the file, a tick that sees the same counter sends nothing.
   */
  lemma NoRepeatedNotification(sel: Selectors, file: Option<string>, faults1: Faults, faults2: Faults,
                               page1: string, page2: string)
    requires TickSpec(sel, file, faults1, Some(page1)).sent != [] && !faults1.writeFails
    requires sel.counterOf(ProcessHtmlContent(page2)) == sel.counterOf(ProcessHtmlContent(page1))
    ensures TickSpec(sel, TickSpec(sel, file, faults1, Some(page1)).file, faults2, Some(page2)).sent == []
  {
    SentMeansPersisted(sel, file, faults1, page1);
    var c := sel.counterOf(ProcessHtmlContent(page1)).value;
    SameCounterIsSilent(sel, c, faults2, page2);
  }

  /**
   * Since the counter is stored while the message is composed and not when
   * the change is detected, a failed write makes the next tick on the same
   * page send the same message again.
   */
  lemma LostWriteRepeatsNotification(sel: Selectors, stored: string, faults: Faults, page: string)
    requires !faults.readFails && faults.writeFails
    requires var counter := sel.counterOf(ProcessHtmlContent(page)); counter.Some? && counter.value != stored
    ensures var e := TickSpec(sel, Some(stored), faults, Some(page));
            && |e.sent| == 1
            && e.file == Some(stored)
            && TickSpec(sel, e.file, faults, Some(page)) == e
  {
  }

  class ReviewScheduler {
    const sel: Selectors
    var file: Option<string>
    var faults: Faults
    var outbox: seq<Delivery>

    constructor (sel: Selectors, file: Option<string>, faults: Faults)
      ensures this.sel == sel && this.file == file && this.faults == faults && outbox == []
    {
      this.sel := sel;
      this.file := file;
      this.faults := faults;
      outbox := [];
    }

    /** `isNewReview` */
    method IsNewReview(html: string) returns (r: Result<bool, Exception>)
      modifies this`file
      ensures Detection(r, file) == Detect(old(file), faults, sel.counterOf(html))
    {
      if file.Some? {
        if faults.readFails {
          // the IOException from reading is caught: fail closed
          return Success(false);
        }
        var content := file.value;
        var reviewCurrent := GetReviewFileData(sel, html);
        if reviewCurrent.Failure? {
          return Failure(reviewCurrent.error);
        }
        return Success(content != reviewCurrent.value);
      } else {
        if faults.writeFails {
          // the IOException from creating the file is caught
          return Success(false);
        }
        file := Some("");
        return Success(true);
      }
    }

    /** `saveToLocalStorage` */
    method SaveToLocalStorage(content: string)
      modifies this`file
      ensures file == Persist(old(file), faults.writeFails, content)
    {
      if !faults.writeFails {
        file := Some(content);
      }
    }

    /** `extractReviewBox`: builds the body by appending, and saves the counter on the way. */
    method ExtractReviewBox(html: string) returns (r: Result<string, Exception>)
      modifies this`file
      ensures Composition(r, file) == Compose(sel, html, old(file), faults.writeFails)
    {
      var reviewBox := sel.detailOf(html);
      var builder := "";
      builder := builder + Intro;
      assert builder == Intro;
      builder := builder + BoxStyle[0];
      builder := builder + BoxStyle[1];
      builder := builder + BoxStyle[2];
      builder := builder + BoxStyle[3];
      builder := builder + BoxStyle[4];
      builder := builder + BoxStyle[5];
      builder := builder + BoxStyle[6];
      if reviewBox.Some? {
        builder := builder + reviewBox.value;
      }
      var counter := GetReviewFileData(sel, html);
      if counter.Failure? {
        return Failure(counter.error);
      }
      assert builder == Header + reviewBox.GetOr("");
      SaveToLocalStorage(counter.value);
      builder := builder + BoxClose;
      builder := builder + Signature;
      assert builder == Header + reviewBox.GetOr("") + Footer;
      assert builder == Body(reviewBox);
      return Success(builder);
    }

    /** `sendEmail`: composes the message and hands it to the transport. */
    method SendEmail(html: string) returns (r: Outcome<Exception>)
      modifies this`file, this`outbox
      ensures var c := Compose(sel, html, old(file), faults.writeFails);
              && file == c.file
              && (c.body.Failure? ==> r == Fail(c.body.error) && outbox == old(outbox))
              && (c.body.Success? ==>
                    && outbox == old(outbox) + [Delivery(Message(c.body.value), !faults.sendFails)]
                    && r == if faults.sendFails then Fail(MailSend) else Pass)
    {
      var emailTemplate := ExtractReviewBox(html);
      if emailTemplate.Failure? {
        return Fail(emailTemplate.error);
      }
      var message := Message(emailTemplate.value);
      outbox := outbox + [Delivery(message, !faults.sendFails)];
      if faults.sendFails {
        return Fail(MailSend);
      }
      return Pass;
    }

    /** `fetchAndProcessHtmlContent`: one tick; every exception ends the tick and goes no further. */
    method FetchAndProcessHtmlContent(fetched: Option<string>)
      modifies this`file, this`outbox
      ensures |old(outbox)| <= |outbox| && outbox[..|old(outbox)|] == old(outbox)
      ensures TickEffect(file, outbox[|old(outbox)|..]) == TickSpec(sel, old(file), faults, fetched)
    {
      if fetched.None? {
        return;
      }
      var processedHtml := ProcessHtmlContent(fetched.value);
      var isNew := IsNewReview(processedHtml);
      if isNew.Failure? {
        return;
      }
      if isNew.value {
        var _ := SendEmail(processedHtml);
      }
    }
  }
}
