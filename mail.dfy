/**
 * The notification: the fixed e-mail headers and the HTML body that
 * `extractReviewBox` builds around the newest review.
 */
module Mail {
  import opened Wrappers

  /** The monitored page; the body links back to it. */
  const PageUrl := "https://reviewscongty.me/company/cong-ty-tnhh-dich-vu-thuong-mai-yesall?sort_by=latest"

  const Intro := IntroLead + PageUrl + IntroTail
  const IntroLead := "<div style=color:#000><p>Hi all,<p>Vừa có review mới của Yes4All, xem ngay <a href=\""
  const IntroTail := "\">tại đây</a></div>"

  /** The opening tag of the review box, appended in seven pieces. */
  const BoxStyle: seq<string> := [
    "<div style=\"background: #fff;",
    "border-radius: 5px;",
    "display: inline-block;",
    "margin: 1rem;",
    "position: relative;",
    "padding: 20px;",
    "box-shadow: 0 19px 38px rgba(0,0,0,0.30), 0 15px 12px rgba(0,0,0,0.22);\">"
  ]
  const BoxClose := "</div>"
  const Signature := "<p style=color:#000>Best wishes</p>"

  /** Everything before the review, and everything after it. */
  const Header := Intro + BoxStyle[0] + BoxStyle[1] + BoxStyle[2] + BoxStyle[3] + BoxStyle[4] + BoxStyle[5] + BoxStyle[6]
  const Footer := BoxClose + Signature

  const Subject := "Có review mới của Yes4All"
  const FromAddress := "reviewyes4all@review.com"
  const FromName := "Review Yes4All"
  const To := "hoangngoc14201@gmail.com"
  const Cc := "thaithuyngan1308@gmail.com"

  datatype Email = Email(
    subject: string,
    fromAddress: string,
    fromName: string,
    to: string,
    cc: string,
    body: string,
    isHtml: bool)

  /** The message `sendEmail` hands to the transport for a body. */
  function Message(body: string): (e: Email)
    ensures e.body == body && e.isHtml
    ensures e.subject == Subject && e.fromAddress == FromAddress && e.fromName == FromName
    ensures e.to == To && e.cc == Cc
  {
    Email(Subject, FromAddress, FromName, To, Cc, body, true)
  }

  /**
   * The body for a page whose review selection gave `detail`: the intro,
   * the box, the review's markup if there is one, the box's end and the
   * signature.
   */
  function Body(detail: Option<string>): string {
    Header + detail.GetOr("") + Footer
  }

  /** The review a body carries, if the text has the shape of a body at all. */
  function DetailOfBody(b: string): Option<string> {
    if |Header| + |Footer| <= |b| && b[..|Header|] == Header && b[|b| - |Footer|..] == Footer
    then Some(b[|Header|..|b| - |Footer|])
    else None
  }

  /** The review can be read back from the body it was put into. */
  lemma BodyRoundTrip(detail: Option<string>)
    ensures DetailOfBody(Body(detail)) == Some(detail.GetOr(""))
  {
    var b := Body(detail);
    var d := detail.GetOr("");
    assert b == Header + d + Footer;
    assert b[..|Header|] == Header;
    assert b[|b| - |Footer|..] == Footer;
    assert b[|Header|..|b| - |Footer|] == d;
  }

  /** Nothing but the fixed text and the review is in a body. */
  lemma BodyOnlyFromParts(b: string, d: string)
    requires DetailOfBody(b) == Some(d)
    ensures b == Body(Some(d))
  {
    assert b == b[..|Header|] + b[|Header|..|b| - |Footer|] + b[|b| - |Footer|..];
  }

  /** Two pages with different reviews give different bodies. */
  lemma BodyInjective(d1: Option<string>, d2: Option<string>)
    requires Body(d1) == Body(d2)
    ensures d1.GetOr("") == d2.GetOr("")
  {
    BodyRoundTrip(d1);
    BodyRoundTrip(d2);
  }

  /** Without a review the body is the wrapper alone, with an empty box. */
  lemma BodyWithoutDetail()
    ensures Body(None) == Header + BoxClose + Signature
  {
  }

  lemma PrefixOfLonger(a: string, b: string, c: string)
    requires a <= b
    ensures a <= b + c
  {
  }

  /** Every body starts with the intro. */
  lemma BodyStartsWithIntro(detail: Option<string>)
    ensures Intro <= Body(detail)
  {
    var parts := BoxStyle;
    var h := Intro;
    PrefixOfLonger(Intro, h, parts[0]);  h := h + parts[0];
    PrefixOfLonger(Intro, h, parts[1]);  h := h + parts[1];
    PrefixOfLonger(Intro, h, parts[2]);  h := h + parts[2];
    PrefixOfLonger(Intro, h, parts[3]);  h := h + parts[3];
    PrefixOfLonger(Intro, h, parts[4]);  h := h + parts[4];
    PrefixOfLonger(Intro, h, parts[5]);  h := h + parts[5];
    PrefixOfLonger(Intro, h, parts[6]);  h := h + parts[6];
    assert h == Header;
    PrefixOfLonger(Intro, h, detail.GetOr(""));  h := h + detail.GetOr("");
    PrefixOfLonger(Intro, h, Footer);
  }

  /** The intro, and so every body, links to the monitored page. */
  lemma BodyLinksToPage(detail: Option<string>)
    ensures Body(detail)[|IntroLead|..|IntroLead| + |PageUrl|] == PageUrl
  {
    BodyStartsWithIntro(detail);
    var b := Body(detail);
    assert b[..|Intro|] == IntroLead + PageUrl + IntroTail;
    assert b[|IntroLead|..|IntroLead| + |PageUrl|] == b[..|Intro|][|IntroLead|..|IntroLead| + |PageUrl|];
  }
}
