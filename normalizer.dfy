/**
 * The normaliser `processHtmlContent`: a fixed chain of eleven `replaceAll`
 * calls on the fetched page, applied in the order they are listed.
 *
 * `RulesAsWritten` gives each rule's regular expression exactly as the
 * source writes it, with Java's meaning of the unescaped `.` and `?`.
 * `Rules` is the chain with every pattern taken as literal text, which is
 * what the authors evidently meant: the two differ on the logo URL (see
 * `LogoUrlSurvivesLine72`). The scheduler normalises with `Rules`.
 */
module Normalizer {
  import opened Wrappers
  import opened Regex

  /** One `replaceAll(pattern, replacement)` step. */
  datatype Rule = Rule(pattern: Pattern, replacement: string)

  /** A rule that neither matches the empty text nor makes the text longer. */
  predicate WellFormed(r: Rule) {
    0 < MinLen(r.pattern) && |r.replacement| <= MinLen(r.pattern)
  }

  /** A rule that deletes what it matches. */
  predicate Deletes(r: Rule) {
    r.replacement == []
  }

  /** Applies the rules one after the other, first rule first. */
  function ApplyRules(rules: seq<Rule>, s: string): string
    decreases |rules|
  {
    if rules == [] then s
    else ApplyRules(rules[1..], ReplaceAll(s, rules[0].pattern, rules[0].replacement))
  }

  const Stamp := "t=1704357127"

  /** The company logo as the page references it. */
  const UploadPath := "/storage/app/uploads/public/companies/cong-ty-tnhh-dich-vu-thuong-mai-yesall"
  const LogoPath := UploadPath + ".png?" + Stamp
  const LogoUrl := "https://reviewscongty.me" + LogoPath

  /**
   * The chain as written. In the rule for the `window.WEB.noImage` handler
   * and in the last four rules every `.` matches any character but a line
   * terminator; in the two logo rules `png?t` means `pn`, an optional `g`,
   * then `t`. The escaped `\.\.\.` is three literal dots.
   */
  const RulesAsWritten: seq<Rule> := [
    Rule([Text("> <span ")], "><span "),
    Rule([Text("Xem thêm")], ""),
    Rule([Text("...")], ""),
    Rule([Text("_view-more-btn")], ""),
    Rule([Text("_view-more-text")], ""),
    Rule([Text("_view-more-content")], ""),
    Rule([Text("this"), AnyChar, Text("onerror = null; this"), AnyChar, Text("src=window"),
          AnyChar, Text("WEB"), AnyChar, Text("noImage")], ""),
    Rule([Text("https://reviewscongty"), AnyChar,
          Text("me" + UploadPath), AnyChar, Text("pn"), Optional('g'), Text(Stamp)], ""),
    Rule([Text(UploadPath), AnyChar, Text("pn"), Optional('g'), Text(Stamp)], ""),
    Rule([Text("https://reviewscongty"), AnyChar, Text("me/themes/ocean/assets/images/default-avatar"),
          AnyChar, Text("png")], ""),
    Rule([Text("https://reviewscongty"), AnyChar, Text("me/themes/ocean/assets/images/logo-web"),
          AnyChar, Text("png")], "")
  ]

  /** The chain with every pattern read as the literal text it spells. */
  const Rules: seq<Rule> := [
    Rule([Text("> <span ")], "><span "),
    Rule([Text("Xem thêm")], ""),
    Rule([Text("...")], ""),
    Rule([Text("_view-more-btn")], ""),
    Rule([Text("_view-more-text")], ""),
    Rule([Text("_view-more-content")], ""),
    Rule([Text("this.onerror = null; this.src=window.WEB.noImage")], ""),
    Rule([Text(LogoUrl)], ""),
    Rule([Text(LogoPath)], ""),
    Rule([Text("https://reviewscongty.me/themes/ocean/assets/images/default-avatar.png")], ""),
    Rule([Text("https://reviewscongty.me/themes/ocean/assets/images/logo-web.png")], "")
  ]

  /**
   * `processHtmlContent` with every pattern read as the literal text it
   * spells, as its authors evidently meant; the scheduler normalises with this.
   */
  function ProcessHtmlContent(html: string): string {
    ApplyRules(Rules, html)
  }

  /** `processHtmlContent` exactly as the program runs it, with the regular expressions as written. */
  function ProcessHtmlContentAsWritten(html: string): string {
    ApplyRules(RulesAsWritten, html)
  }
  /** The rules are applied in the order they are listed. */
  lemma {:induction false} ApplyRulesAppend(a: seq<Rule>, b: seq<Rule>, s: string)
    ensures ApplyRules(a + b, s) == ApplyRules(b, ApplyRules(a, s))
    decreases |a|
  {
    if a == [] {
      assert a + b == b;
    } else {
      assert (a + b)[0] == a[0];
      assert (a + b)[1..] == a[1..] + b;
      ApplyRulesAppend(a[1..], b, ReplaceAll(s, a[0].pattern, a[0].replacement));
    }
  }

  /** Well-formed rules never make the text longer. */
  lemma {:induction false} ApplyRulesShrinks(rules: seq<Rule>, s: string)
    requires forall k :: 0 <= k < |rules| ==> WellFormed(rules[k])
    ensures |ApplyRules(rules, s)| <= |s|
    decreases |rules|
  {
    if rules != [] {
      var t := ReplaceAll(s, rules[0].pattern, rules[0].replacement);
      ReplaceAllShrinks(s, rules[0].pattern, rules[0].replacement);
      ApplyRulesShrinks(rules[1..], t);
    }
  }

  /** Well-formed rules leave the empty text empty. */
  lemma {:induction false} ApplyRulesEmpty(rules: seq<Rule>)
    requires forall k :: 0 <= k < |rules| ==> WellFormed(rules[k])
    ensures ApplyRules(rules, []) == []
    decreases |rules|
  {
    if rules != [] {
      ReplaceAllEmpty(rules[0].pattern, rules[0].replacement);
      ApplyRulesEmpty(rules[1..]);
    }
  }

  /** A text in which no rule matches anywhere comes back unchanged. */
  lemma {:induction false} ApplyRulesNoMatch(rules: seq<Rule>, s: string)
    requires forall k, i :: 0 <= k < |rules| && 0 <= i <= |s| ==> MatchLen(rules[k].pattern, s[i..]).None?
    ensures ApplyRules(rules, s) == s
    decreases |rules|
  {
    if rules != [] {
      forall i | 0 <= i <= |s| ensures MatchLen(rules[0].pattern, s[i..]).None? {
        assert MatchLen(rules[0].pattern, s[i..]).None?;
      }
      ReplaceAllNoMatch(s, rules[0].pattern, rules[0].replacement);
      forall k, i | 0 <= k < |rules[1..]| && 0 <= i <= |s|
        ensures MatchLen(rules[1..][k].pattern, s[i..]).None?
      {
        assert rules[1..][k] == rules[k + 1];
      }
      ApplyRulesNoMatch(rules[1..], s);
    }
  }

  /**
   * The shape of the corrected chain: eleven rules, the first turns the
   * 8-character `> <span ` into the 7-character `><span `, every other rule
   * deletes its match, and every rule is well-formed.
   */
  lemma RulesShape()
    ensures |Rules| == 11
    ensures Rules[0].pattern == [Text("> <span ")] && Rules[0].replacement == "><span "
    ensures MinLen(Rules[0].pattern) == 8 && |Rules[0].replacement| == 7
    ensures forall k :: 1 <= k < |Rules| ==> Deletes(Rules[k])
    ensures forall k :: 0 <= k < |Rules| ==> WellFormed(Rules[k])
  {
  }

  /** The same shape holds for the chain as written. */
  lemma RulesAsWrittenShape()
    ensures |RulesAsWritten| == 11
    ensures RulesAsWritten[0] == Rules[0]
    ensures forall k :: 1 <= k < |RulesAsWritten| ==> Deletes(RulesAsWritten[k])
    ensures forall k :: 0 <= k < |RulesAsWritten| ==> WellFormed(RulesAsWritten[k])
  {
  }

  /** Normalisation never makes the page longer. */
  lemma ProcessHtmlContentShrinks(html: string)
    ensures |ProcessHtmlContent(html)| <= |html|
    ensures |ProcessHtmlContentAsWritten(html)| <= |html|
  {
    RulesShape();
    RulesAsWrittenShape();
    ApplyRulesShrinks(Rules, html);
    ApplyRulesShrinks(RulesAsWritten, html);
  }

  /** Normalising the empty page gives the empty page. */
  lemma ProcessHtmlContentEmpty()
    ensures ProcessHtmlContent("") == ""
    ensures ProcessHtmlContentAsWritten("") == ""
  {
    RulesShape();
    RulesAsWrittenShape();
    ApplyRulesEmpty(Rules);
    ApplyRulesEmpty(RulesAsWritten);
  }

  /** A page in which none of the eleven patterns occurs is not altered. */
  lemma ProcessHtmlContentNoMatch(html: string)
    requires forall k, i :: 0 <= k < |Rules| && 0 <= i <= |html| ==> MatchLen(Rules[k].pattern, html[i..]).None?
    ensures ProcessHtmlContent(html) == html
  {
    ApplyRulesNoMatch(Rules, html);
  }
  /**
   * The tail `.pn` `g?` `t=1704357127` of the two logo rules as written
   * cannot match the tail `.png?t=1704357127` of the logo's address: after
   * `pn` it needs `t` or `gt`, and the text has `g?t`.
   */
  lemma LogoTailMisses()
    ensures MatchLen([AnyChar, Text("pn"), Optional('g'), Text(Stamp)], ".png?" + Stamp) == None
  {
    var q := [Optional('g'), Text(Stamp)];
    var s := "g?" + Stamp;
    assert MatchLen([Text(Stamp)], s[1..]) == None by { assert s[1..][0] != Stamp[0]; }
    assert MatchLen([Text(Stamp)], s) == None by { assert s[0] != Stamp[0]; }
    assert MatchLen(q[1..], s[1..]) == None by { assert q[1..] == [Text(Stamp)]; }
    assert MatchLen(q, s) == None;
    var u := "png?" + Stamp;
    assert "pn" <= u;
    assert u[2..] == s;
    assert MatchLen([Text("pn")] + q, u) == None by { assert ([Text("pn")] + q)[1..] == q; }
    assert [AnyChar, Text("pn"), Optional('g'), Text(Stamp)][1..] == [Text("pn")] + q;
    assert (".png?" + Stamp)[1..] == u;
  }

  /** The logo's address, cut where the rule at line 72 has its wildcards. */
  lemma LogoUrlPieces()
    ensures LogoUrl == "https://reviewscongty" + "." + ("me" + UploadPath) + (".png?" + Stamp)
    ensures |LogoUrl| == 21 + 1 + (2 + |UploadPath|) + 17
  {
    assert "https://reviewscongty.me" == "https://reviewscongty" + "." + "me";
  }

  const LogoTail: Pattern := [AnyChar, Text("pn"), Optional('g'), Text(Stamp)]

  lemma LogoTailMinLen()
    ensures MinLen(LogoTail) == 15
  {
    var t := LogoTail;
    assert MinLen(t[3..]) == 12;
    assert MinLen(t[2..]) == 12 by { assert t[2..][1..] == t[3..]; }
    assert MinLen(t[1..]) == 14 by { assert t[1..][1..] == t[2..]; }
  }

  lemma Line72MinLen()
    ensures RulesAsWritten[7].pattern == [Text("https://reviewscongty"), AnyChar, Text("me" + UploadPath)] + LogoTail
    ensures MinLen(RulesAsWritten[7].pattern) == |LogoUrl| - 2
  {
    var h := [Text("https://reviewscongty"), AnyChar, Text("me" + UploadPath)];
    MinLenAppend(h, LogoTail);
    LogoTailMinLen();
    LogoUrlPieces();
    assert MinLen(h[2..]) == 2 + |UploadPath|;
    assert MinLen(h[1..]) == 3 + |UploadPath| by { assert h[1..][1..] == h[2..]; }
  }

  /** A host and path followed by the logo's tail never match the host, a wildcard, the path and the logo rule's tail. */
  lemma TailMissesAfter(a: string, b: string)
    ensures MatchLen([Text(a), AnyChar, Text(b)] + LogoTail, a + "." + b + (".png?" + Stamp)) == None
  {
    var p := [Text(a), AnyChar, Text(b)] + LogoTail;
    var tail := ".png?" + Stamp;
    var url := a + "." + b + tail;
    assert a <= url;
    assert url[|a|..] == "." + b + tail;
    assert ("." + b + tail)[1..] == b + tail;
    assert b <= b + tail && (b + tail)[|b|..] == tail;
    LogoTailMisses();
    assert p[3..] == LogoTail;
    assert p[2..] == [Text(b)] + LogoTail;
    assert MatchLen(p[2..], b + tail) == None;
    assert MatchLen(p[1..], "." + b + tail) == None;
  }

  /**
   * The rule at source line 72, as written, leaves in place the very address
   * it spells out.
   */
  lemma LogoUrlSurvivesLine72()
    ensures ReplaceAll(LogoUrl, RulesAsWritten[7].pattern, "") == LogoUrl
  {
    var p := RulesAsWritten[7].pattern;
    var url := LogoUrl;
    Line72MinLen();
    LogoUrlPieces();
    TailMissesAfter("https://reviewscongty", "me" + UploadPath);
    var host := "https://reviewscongty";
    var m := "me" + UploadPath;
    assert p[0] == Text(host);
    // the characters after the leading `h` are read off the short host, not the whole address
    assert url[1] == (host + "." + m)[1] == (host + ".")[1] == host[1] == 't';
    assert url[2] == (host + "." + m)[2] == (host + ".")[2] == host[2] == 't';
    assert MatchLen(p, url[1..]) == None by { assert url[1..][0] == url[1]; }
    assert MatchLen(p, url[2..]) == None by { assert url[2..][0] == url[2]; }
    ReplaceAllFirstThree(url, p);
  }
  /** The rule at source line 73, as written, leaves the logo's path in place. */
  lemma LogoPathSurvivesLine73()
    ensures ReplaceAll(LogoPath, RulesAsWritten[8].pattern, "") == LogoPath
  {
    var p := RulesAsWritten[8].pattern;
    var path := LogoPath;
    assert p == [Text(UploadPath)] + LogoTail;
    MinLenAppend([Text(UploadPath)], LogoTail);
    LogoTailMinLen();
    assert path == UploadPath + (".png?" + Stamp);
    assert UploadPath <= path && path[|UploadPath|..] == ".png?" + Stamp;
    LogoTailMisses();
    assert p[1..] == LogoTail;
    assert p[0] == Text(UploadPath);
    // at indexes 1 and 2 the path's text would have to end where the text has its `.`
    var n := |UploadPath|;
    assert UploadPath[n - 1] == UploadPath[n - 2] == 'l' && path[n] == '.';
    assert MatchLen(p, path[1..]) == None by { assert path[1..][n - 1] == path[n]; }
    assert MatchLen(p, path[2..]) == None by { assert path[2..][n - 2] == path[n]; }
    ReplaceAllFirstThree(path, p);
  }

  /** Read literally, the rule at line 72 deletes the logo's address. */
  lemma LogoUrlRemovedLiterally()
    ensures ReplaceAll(LogoUrl, Rules[7].pattern, "") == ""
  {
    ReplaceAllTextFront(LogoUrl, [], "");
    assert LogoUrl + [] == LogoUrl;
  }

  /** Read literally, the rule at line 73 deletes the logo's path. */
  lemma LogoPathRemovedLiterally()
    ensures ReplaceAll(LogoPath, Rules[8].pattern, "") == ""
  {
    ReplaceAllTextFront(LogoPath, [], "");
    assert LogoPath + [] == LogoPath;
  }

  /**
   * A rule that cannot match anywhere in `s`: every match is longer than `s`,
   * or the rule's text starts with a character `s` does not contain.
   */
  predicate Misses(r: Rule, s: string) {
    || |s| < MinLen(r.pattern)
    || (&& r.pattern != []
        && r.pattern[0].Text?
        && r.pattern[0].t != []
        && r.pattern[0].t[0] !in s)
  }

  lemma ReplaceAllMisses(r: Rule, s: string)
    requires Misses(r, s)
    ensures ReplaceAll(s, r.pattern, r.replacement) == s
  {
    var p := r.pattern;
    if |s| < MinLen(p) {
      ReplaceAllTooShort(s, p, r.replacement);
    } else {
      assert p == [p[0]] + p[1..];
      ReplaceAllSkip(s, [], p[0].t, p[1..], r.replacement);
      assert s + [] == s;
      assert MinLen(p) > 0;
    }
  }

  lemma {:induction false} ApplyRulesMiss(rules: seq<Rule>, s: string)
    requires forall k :: 0 <= k < |rules| ==> Misses(rules[k], s)
    ensures ApplyRules(rules, s) == s
    decreases |rules|
  {
    if rules != [] {
      ReplaceAllMisses(rules[0], s);
      ApplyRulesMiss(rules[1..], s);
    }
  }

  /** The first rule finds no `> <span ` in `> Xem thêm<span `. */
  lemma Rule0Misses(s: string)
    requires s == "> Xem thêm<span "
    ensures ReplaceAll(s, Rules[0].pattern, Rules[0].replacement) == s
  {
    var r := Rules[0];
    assert r == Rule([Text("> <span ")], "><span ");
    assert MatchLen(r.pattern, s) == None by { assert s[2] != "> <span "[2]; }
    assert '>' !in s[1..];
    ReplaceAllMisses(r, s[1..]);
    ReplaceAllUnchangedFrom1(s, r.pattern, r.replacement);
  }

  /** The second rule deletes the `Xem thêm` of `> Xem thêm<span `. */
  lemma Rule1Deletes(s: string)
    requires s == "> Xem thêm<span "
    ensures ReplaceAll(s, Rules[1].pattern, Rules[1].replacement) == "> <span "
  {
    assert Rules[1] == Rule([Text("Xem thêm")], "");
    assert s == "> " + "Xem thêm" + "<span ";
    DeleteLoneOccurrence("> ", "Xem thêm", "<span ");
  }

  /** No rule after the second one matches `> <span `. */
  lemma LaterRulesMissSpan(s: string)
    requires s == "> <span "
    ensures ApplyRules(Rules[2..], s) == s
  {
    assert '.' !in s;
    ApplyRulesMiss(Rules[2..], s);
  }

  /** The first rule turns `> <span ` into `><span `. */
  lemma Rule0Joins(s: string)
    requires s == "> <span "
    ensures ReplaceAll(s, Rules[0].pattern, Rules[0].replacement) == "><span "
  {
    assert Rules[0] == Rule([Text(s)], "><span ");
    ReplaceAllTextFront(s, [], "><span ");
    assert s + [] == s;
  }

  /** No rule after the first one matches `><span `. */
  lemma LaterRulesMissJoined(t: string)
    requires t == "><span "
    ensures ApplyRules(Rules[1..], t) == t
  {
    assert '.' !in t && 'X' !in t;
    ApplyRulesMiss(Rules[1..], t);
  }

  /** A second pass over `> <span ` gives `><span `. */
  lemma SecondPass(s: string)
    requires s == "> <span "
    ensures ProcessHtmlContent(s) == "><span "
  {
    Rule0Joins(s);
    LaterRulesMissJoined("><span ");
  }

  /** The first two steps of a chain of at least two rules. */
  lemma ApplyRulesFirstTwo(rules: seq<Rule>, s: string)
    requires |rules| >= 2
    ensures ApplyRules(rules, s) ==
            ApplyRules(rules[2..], ReplaceAll(ReplaceAll(s, rules[0].pattern, rules[0].replacement),
                                              rules[1].pattern, rules[1].replacement))
  {
    assert rules[1..][0] == rules[1] && rules[1..][1..] == rules[2..];
  }

  /**
   * Normalisation is not idempotent: deleting `Xem thêm` can bring together a
   * `> <span ` that the first rule has already gone past.
   */
  lemma ProcessHtmlContentNotIdempotent(s: string)
    requires s == "> Xem thêm<span "
    ensures ProcessHtmlContent(s) == "> <span "
    ensures ProcessHtmlContent(ProcessHtmlContent(s)) == "><span " != ProcessHtmlContent(s)
  {
    var t := "> <span ";
    Rule0Misses(s);
    Rule1Deletes(s);
    ApplyRulesFirstTwo(Rules, s);
    LaterRulesMissSpan(t);
    SecondPass(t);
  }
}
