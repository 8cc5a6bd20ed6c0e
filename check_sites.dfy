/** The decision core of the site checker: normalising a domain line,
    building the four candidate URLs, choosing the response that decides a
    domain's record, and the sorted, de-duplicated pass over all domains.
    The HTTP client is replaced by its outcomes, given as input. */
module CheckSites {
  import opened PyString
  import opened SortedSet

  datatype Option<T> = None | Some(value: T)

  /** Substrings whose presence in a page marks it as served by the vendor
      platform. All are already lower case. */
  const Signatures: seq<string> := [
    "boatsgroup.com",
    "dealer spike",
    "dealer-spike",
    "app.boatwizard.com",
    "yachtcloser.com",
    "powered by boats group",
    "boatwizard",
    "marinegroupec",
    "ycwebservice",
    "boats-dns-test.com"
  ]

  /** The report's columns, in the order the CSV header lists them. */
  const Columns: seq<string> := [
    "domain", "tried_url", "final_url", "status_code",
    "alive", "powered_by_boatsgroup", "status_label", "error"
  ]

  const Schemes: seq<string> := ["https", "http"]
  const Prefixes: seq<string> := ["", "www."]

  const LabelBoats: string := "alive-boatsgroup"
  const LabelNotBoats: string := "alive-not-boatsgroup"
  const LabelDead: string := "dead"
  const AllFailed: string := "all attempts failed"
  const NoValidResponse: string := "No valid response"

  /** The status column holds an HTTP status or the text "N/A". */
  datatype StatusCode = Code(value: int) | NotAvailable

  /** What one GET of a candidate URL gave: a transport exception with its
      message, or a response with its status, the URL reached after
      redirects, and its body. */
  datatype Outcome =
    | Raised(message: string)
    | Responded(status: int, url: string, text: string)

  /** One row of the report. */
  datatype ProbeResult = ProbeResult(
    domain: string,
    triedUrl: string,
    finalUrl: string,
    statusCode: StatusCode,
    alive: bool,
    poweredByBoatsgroup: bool,
    statusLabel: string,
    error: string)

  // ---------------------------------------------------------------------
  // normalize

  /** The host name a line stands for: surrounding whitespace stripped,
      lower-cased, every "http://" and then every "https://" removed, and
      '/' stripped from both ends. */
  function Normalize(domain: string): string {
    var lowered := Lower(Strip(domain, Whitespace));
    Strip(RemoveAll(RemoveAll(lowered, "http://"), "https://"), Chars({'/'}))
  }

  /** The normalised domain has no '/' at either end and no upper-case
      ASCII letter: lowering comes first, and the later steps only remove
      characters. */
  lemma NormalizeSpec(domain: string)
    ensures var r := Normalize(domain);
            && |r| <= |domain|
            && (r != [] ==> r[0] != '/' && r[|r| - 1] != '/')
            && NoUpper(r)
  {
    var stripped := Strip(domain, Whitespace);
    StripSpec(domain, Whitespace);
    var lowered := Lower(stripped);
    LowerSpec(stripped);
    var noHttp := RemoveAll(lowered, "http://");
    RemoveAllSpec(lowered, "http://");
    var noHttps := RemoveAll(noHttp, "https://");
    RemoveAllSpec(noHttp, "https://");
    StripSpec(noHttps, Chars({'/'}));
  }

  /** Follows `Normalize` through its five steps; the concrete cases below
      establish each step on its own and then put them together here. */
  lemma NormalizeSteps(x: string, a: string, b: string, c: string, d: string, e: string)
    requires Strip(x, Whitespace) == a && Lower(a) == b
    requires RemoveAll(b, "http://") == c && RemoveAll(c, "https://") == d
    requires Strip(d, Chars({'/'})) == e
    ensures Normalize(x) == e
  {
  }

  /** Neither scheme occurs in text that has no 'h'. */
  lemma RemoveSchemesNoH(s: string)
    requires 'h' !in s
    ensures RemoveAll(s, "http://") == s && RemoveAll(s, "https://") == s
  {
    RemoveAllFirstCharAbsent(s, "http://");
    RemoveAllFirstCharAbsent(s, "https://");
  }

  /** A line in upper case with a scheme and a trailing slash reduces to
      the bare lower-case host name. */
  lemma NormalizeExample()
    ensures Normalize("HTTPS://Example.COM/") == "example.com"
  {
    StripExample();
    LowerExample();
    RemoveHttpExample();
    RemoveHttpsExample();
    TrailingSlashExample();
    NormalizeSteps("HTTPS://Example.COM/", "HTTPS://Example.COM/", "https://example.com/",
                   "https://example.com/", "example.com/", "example.com");
  }

  lemma StripExample()
    ensures Strip("HTTPS://Example.COM/", Whitespace) == "HTTPS://Example.COM/"
  {
    StripUnpadded("HTTPS://Example.COM/", Whitespace);
  }

  lemma RemoveHttpExample()
    ensures RemoveAll("https://example.com/", "http://") == "https://example.com/"
  {
    OtherSchemeKept("https://example.com/", "https://", "http://", "example.com/");
  }

  lemma RemoveHttpsExample()
    ensures RemoveAll("https://example.com/", "https://") == "example.com/"
  {
    RemoveHttpsPrefix("https://example.com/", "example.com/");
  }

  lemma LowerExample()
    ensures Lower("HTTPS://Example.COM/") == "https://example.com/"
  {
    LowerSpec("HTTPS://Example.COM/");
  }

  lemma TrailingSlashExample()
    ensures Strip("example.com/", Chars({'/'})) == "example.com"
  {
    StripOfPadded([], "example.com", "/", Chars({'/'}));
    assert [] + "example.com" + "/" == "example.com/";
  }

  /** Text that starts with one scheme and has no 'h' after it holds no
      occurrence of the other scheme: where one has its 's' the other has
      its ':', and nowhere else is there an 'h' to start one. */
  lemma OtherSchemeKept(s: string, scheme: string, other: string, rest: string)
    requires (scheme, other) == ("https://", "http://") || (scheme, other) == ("http://", "https://")
    requires s == scheme + rest && 'h' !in rest
    ensures RemoveAll(s, other) == s
  {
    assert !(other <= s) by {
      assert s[4] != other[4];
    }
    assert 'h' !in s[1..] by {
      assert s[1..] == scheme[1..] + rest;
    }
    RemoveSchemesNoH(s[1..]);
    assert s == [s[0]] + s[1..];
  }

  /** "https://" + `rest` loses its scheme, when `rest` has no 'h'. */
  lemma RemoveHttpsPrefix(s: string, rest: string)
    requires s == "https://" + rest && 'h' !in rest
    ensures RemoveAll(s, "https://") == rest
  {
    assert "https://" <= s;
    assert s[8..] == rest;
    RemoveSchemesNoH(rest);
  }

  /** `RemoveAll` of "http://" on "ht" + "http://" + `rest`, when `rest`
      has no 'h': the occurrence in the middle goes, and the two halves
      left and right of it join. */
  lemma RemoveHttpInside(s: string, rest: string)
    requires s == "hthttp://" + rest && 'h' !in rest
    ensures RemoveAll(s, "http://") == "ht" + rest
  {
    assert s == "ht" + "http://" + rest;
    assert !MatchAt(s, "http://", 0) by {
      assert s[0..][2] != "http://"[2];
    }
    assert !MatchAt(s, "http://", 1) by {
      assert s[1..][0] != "http://"[0];
    }
    RemoveAllLeftmost("ht", "http://", rest);
    RemoveSchemesNoH(rest);
  }

  /** "http://" with `rest` after it loses its scheme, when `rest` has no
      'h'. */
  lemma RemoveHttpPrefix(s: string, rest: string)
    requires s == "http://" + rest && 'h' !in rest
    ensures RemoveAll(s, "http://") == rest
    ensures RemoveAll(rest, "https://") == rest
  {
    assert "http://" <= s;
    assert s[7..] == rest;
    RemoveSchemesNoH(rest);
  }

  /** Removing "http://" from the middle of "hthttp://tp://x" joins the
      two halves into a new "http://". */
  lemma NormalizeJoinsScheme()
    ensures Normalize("hthttp://tp://x") == "http://x"
  {
    StripJoinsScheme();
    LowerJoinsScheme();
    JoinScheme("hthttp://tp://x");
    NoHttpsInHttpX();
    StripHttpX();
    NormalizeSteps("hthttp://tp://x", "hthttp://tp://x", "hthttp://tp://x",
                   "http://x", "http://x", "http://x");
  }

  lemma StripJoinsScheme()
    ensures Strip("hthttp://tp://x", Whitespace) == "hthttp://tp://x"
  {
    StripUnpadded("hthttp://tp://x", Whitespace);
  }

  lemma NoHttpsInHttpX()
    ensures RemoveAll("http://x", "https://") == "http://x"
  {
    OtherSchemeKept("http://x", "http://", "https://", "x");
  }

  lemma StripHttpX()
    ensures Strip("http://x", Chars({'/'})) == "http://x"
  {
    StripUnpadded("http://x", Chars({'/'}));
  }

  lemma LowerJoinsScheme()
    ensures Lower("hthttp://tp://x") == "hthttp://tp://x"
  {
    LowerSpec("hthttp://tp://x");
  }

  lemma JoinScheme(s: string)
    requires s == "hthttp://tp://x"
    ensures RemoveAll(s, "http://") == "http://x"
  {
    RemoveHttpInside(s, "tp://x");
    assert "ht" + "tp://x" == "http://x";
  }

  lemma NormalizeHttpX()
    ensures Normalize("http://x") == "x"
  {
    var t := "http://x";
    StripUnpadded(t, Whitespace);
    LowerSpec(t);
    RemoveHttpPrefix("http://x", "x");
    StripUnpadded("x", Chars({'/'}));
    NormalizeSteps(t, t, t, "x", "x", "x");
  }

  lemma NormalizeX()
    ensures Normalize("x") == "x"
  {
    StripUnpadded("x", Whitespace);
    LowerSpec("x");
    RemoveSchemesNoH("x");
    StripUnpadded("x", Chars({'/'}));
    NormalizeSteps("x", "x", "x", "x", "x", "x");
  }

  /** Stripping '/' last can leave whitespace at the front. */
  lemma NormalizeExposesSpace()
    ensures Normalize("/ a") == " a"
  {
    var u := "/ a";
    StripUnpadded(u, Whitespace);
    LowerSpec(u);
    RemoveSchemesNoH(u);
    assert Strip(u, Chars({'/'})) == " a" by {
      StripOfPadded("/", " a", [], Chars({'/'}));
      assert "/" + " a" + [] == u;
    }
    NormalizeSteps(u, u, u, u, u, " a");
  }

  lemma NormalizeSpaceA()
    ensures Normalize(" a") == "a"
  {
    var v := " a";
    assert Strip(v, Whitespace) == "a" by {
      StripOfPadded(" ", "a", [], Whitespace);
      assert " " + "a" + [] == v;
    }
    LowerSpec("a");
    RemoveSchemesNoH("a");
    StripUnpadded("a", Chars({'/'}));
    NormalizeSteps(v, "a", "a", "a", "a", "a");
  }

  /** Normalising twice can differ from normalising once: removing one
      scheme can bring another together, and stripping '/' can expose
      whitespace that the first strip has already passed. */
  lemma NormalizeNotIdempotent()
    ensures exists x :: Normalize(Normalize(x)) != Normalize(x)
    ensures Normalize(Normalize("hthttp://tp://x")) != Normalize("hthttp://tp://x")
    ensures Normalize(Normalize("/ a")) != Normalize("/ a")
  {
    NormalizeJoinsScheme();
    NormalizeHttpX();
    NormalizeExposesSpace();
    NormalizeSpaceA();
    assert Normalize(Normalize("/ a")) != Normalize("/ a");
  }

  /** A host name that is already in normal form is left as it is: lower
      case, no whitespace or '/' at its ends, and no scheme inside it. */
  lemma NormalizeFixesClean(d: string)
    requires NoUpper(d)
    requires d != [] ==> !IsSpace(d[0]) && !IsSpace(d[|d| - 1])
    requires d != [] ==> d[0] != '/' && d[|d| - 1] != '/'
    requires forall i :: 0 <= i <= |d| ==> !MatchAt(d, "http://", i) && !MatchAt(d, "https://", i)
    ensures Normalize(d) == d
  {
    StripUnpadded(d, Whitespace);
    LowerSpec(d);
    RemoveAllNoMatch(d, "http://");
    RemoveAllNoMatch(d, "https://");
    StripUnpadded(d, Chars({'/'}));
    NormalizeSteps(d, d, d, d, d, d);
  }

  /** Where normalising twice does agree with normalising once: when the
      first result holds no scheme and has no whitespace at its ends. */
  lemma NormalizeIdempotentWhenClean(x: string)
    requires var d := Normalize(x);
             && (d != [] ==> !IsSpace(d[0]) && !IsSpace(d[|d| - 1]))
             && forall i :: 0 <= i <= |d| ==> !MatchAt(d, "http://", i) && !MatchAt(d, "https://", i)
    ensures Normalize(Normalize(x)) == Normalize(x)
  {
    NormalizeSpec(x);
    NormalizeFixesClean(Normalize(x));
  }

  // ---------------------------------------------------------------------
  // try_variants

  /** The candidate URLs for a domain, in the order they are tried. */
  function Variants(domain: string): seq<string> {
    ["https://" + domain, "https://www." + domain,
     "http://" + domain, "http://www." + domain]
  }

  /** Builds the candidates as the source does, one scheme after the other
      and, within a scheme, the bare domain before the "www." one. */
  method TryVariants(domain: string) returns (variants: seq<string>)
    ensures variants == Variants(domain)
  {
    variants := [];
    for i := 0 to |Schemes|
      invariant |variants| == 2 * i
      invariant forall k :: 0 <= k < |variants| ==>
                  variants[k] == Schemes[k / 2] + "://" + Prefixes[k % 2] + domain
    {
      for j := 0 to |Prefixes|
        invariant |variants| == 2 * i + j
        invariant forall k :: 0 <= k < |variants| ==>
                    variants[k] == Schemes[k / 2] + "://" + Prefixes[k % 2] + domain
      {
        variants := variants + [Schemes[i] + "://" + Prefixes[j] + domain];
      }
    }
    ghost var expected := Variants(domain);
    assert variants[0] == expected[0] && variants[1] == expected[1];
    assert variants[2] == expected[2] && variants[3] == expected[3];
  }

  /** The four candidates are pairwise different, and none of them is the
      text that a dead record puts in its `tried_url` column. */
  lemma VariantsDistinct(domain: string)
    ensures forall i, j :: 0 <= i < j < 4 ==> Variants(domain)[i] != Variants(domain)[j]
    ensures forall i :: 0 <= i < 4 ==> Variants(domain)[i] != AllFailed
  {
    var v := Variants(domain);
    assert v[0][4] == 's' && v[1][4] == 's' && v[2][4] == ':' && v[3][4] == ':';
    assert |v[0]| < |v[1]| && |v[2]| < |v[3]|;
    assert forall i :: 0 <= i < 4 ==> v[i][0] == 'h';
  }

  // ---------------------------------------------------------------------
  // check_domain

  /** The response counts when its status is in [200, 400). */
  predicate IsLive(o: Outcome) {
    o.Responded? && 200 <= o.status < 400
  }

  /** The index of the first outcome that counts, if there is one. */
  function FirstLive(outcomes: seq<Outcome>): (r: Option<nat>)
    ensures r.Some? ==> r.value < |outcomes| && IsLive(outcomes[r.value])
                        && forall j :: 0 <= j < r.value ==> !IsLive(outcomes[j])
    ensures r.None? <==> forall j :: 0 <= j < |outcomes| ==> !IsLive(outcomes[j])
  {
    if outcomes == [] then
      None
    else if IsLive(outcomes[0]) then
      Some(0)
    else
      match FirstLive(outcomes[1..])
      case None => None
      case Some(k) => Some(k + 1)
  }

  /** The message of the last exception among the outcomes, if any was
      raised. */
  function LastRaised(outcomes: seq<Outcome>): (r: Option<string>)
    ensures r.Some? ==> exists k :: 0 <= k < |outcomes| && outcomes[k] == Raised(r.value)
                          && forall j :: k < j < |outcomes| ==> !outcomes[j].Raised?
    ensures r.None? <==> forall j :: 0 <= j < |outcomes| ==> !outcomes[j].Raised?
  {
    if outcomes == [] then
      None
    else
      var last := outcomes[|outcomes| - 1];
      if last.Raised? then
        Some(last.message)
      else
        var r := LastRaised(outcomes[..|outcomes| - 1]);
        assert forall j :: 0 <= j < |outcomes| - 1 ==> outcomes[..|outcomes| - 1][j] == outcomes[j];
        r
  }

  /** Whether at least one of the signatures occurs in the page. */
  function AnyContained(html: string, signatures: seq<string>): bool {
    if signatures == [] then false
    else Contains(html, signatures[0]) || AnyContained(html, signatures[1..])
  }

  /** The page matches exactly when one of the signatures occurs in it. */
  lemma {:induction false} AnyContainedSpec(html: string, signatures: seq<string>)
    ensures AnyContained(html, signatures) <==>
              exists s :: s in signatures && exists i :: MatchAt(html, s, i)
  {
    if signatures != [] {
      var first, rest := signatures[0], signatures[1..];
      AnyContainedSpec(html, rest);
      ContainsSpec(html, first);
      assert signatures == [first] + rest;
      if AnyContained(html, signatures) {
        if Contains(html, first) {
          assert first in signatures;
        } else {
          var s :| s in rest && exists i :: MatchAt(html, s, i);
          assert s in signatures;
        }
      }
      if exists s :: s in signatures && exists i :: MatchAt(html, s, i) {
        var s :| s in signatures && exists i :: MatchAt(html, s, i);
        assert s == first || s in rest;
      }
    }
  }

  /** The record for a response whose status is in range. */
  function LiveRecord(domain: string, url: string, status: int, finalUrl: string, text: string): ProbeResult {
    var matched := AnyContained(Lower(text), Signatures);
    ProbeResult(domain, url, finalUrl, Code(status), true, matched,
                if matched then LabelBoats else LabelNotBoats, "")
  }

  /** The record for a domain none of whose candidates gave a response in
      range. */
  function DeadRecord(domain: string, lastError: Option<string>): ProbeResult {
    ProbeResult(domain, AllFailed, "", NotAvailable, false, false, LabelDead,
                match lastError case Some(m) => m case None => NoValidResponse)
  }

  /** The record check_domain builds for the normalised domain `d` when the
      GETs of its four candidates give `outcomes`: the record of the first
      response in range, or else the dead record carrying the last
      exception's message. */
  function Select(d: string, outcomes: seq<Outcome>): ProbeResult
    requires |outcomes| == 4
  {
    match FirstLive(outcomes)
    case Some(k) =>
      var o := outcomes[k];
      LiveRecord(d, Variants(d)[k], o.status, o.url, o.text)
    case None =>
      DeadRecord(d, LastRaised(outcomes))
  }

  /** What check_domain returns for the line `domain`. */
  function Probe(domain: string, outcomes: seq<Outcome>): ProbeResult
    requires |outcomes| == 4
  {
    Select(Normalize(domain), outcomes)
  }

  /** The invariants every record keeps: "dead" exactly when not alive, a
      vendor match only on a live page and then labelled as such, a status
      in range and no error text on a live record, and the fixed columns of
      a dead one. */
  predicate WellFormed(r: ProbeResult) {
    (r.statusLabel == LabelDead <==> !r.alive)
    && (r.poweredByBoatsgroup ==> r.alive)
    && (r.alive ==> r.statusLabel == (if r.poweredByBoatsgroup then LabelBoats else LabelNotBoats)
                    && r.statusCode.Code? && 200 <= r.statusCode.value < 400 && r.error == "")
    && (!r.alive ==> r.triedUrl == AllFailed && r.finalUrl == ""
                     && r.statusCode == NotAvailable && !r.poweredByBoatsgroup)
  }

  /** Normalises the domain, then tries its candidates in order with the
      given outcomes, returning at the first response in range; exceptions
      and out-of-range responses move on to the next candidate. */
  method CheckDomain(domain: string, outcomes: seq<Outcome>) returns (r: ProbeResult)
    requires |outcomes| == 4
    ensures r == Probe(domain, outcomes)
    ensures WellFormed(r)
  {
    var d := Normalize(domain);
    var triedUrls := TryVariants(d);
    var lastError: Option<string> := None;
    for i := 0 to |triedUrls|
      invariant forall j :: 0 <= j < i ==> !IsLive(outcomes[j])
      invariant lastError == LastRaised(outcomes[..i])
    {
      assert outcomes[..i + 1][..i] == outcomes[..i];
      match outcomes[i]
      case Raised(message) =>
        lastError := Some(message);
      case Responded(status, finalUrl, text) =>
        if 200 <= status < 400 {
          r := LiveRecord(d, triedUrls[i], status, finalUrl, text);
          assert FirstLive(outcomes) == Some(i);
          LabelsDiffer();
          return;
        }
    }
    assert outcomes[..|triedUrls|] == outcomes;
    r := DeadRecord(d, lastError);
    LabelsDiffer();
  }

  lemma LabelsDiffer()
    ensures LabelBoats != LabelDead && LabelNotBoats != LabelDead && LabelBoats != LabelNotBoats
  {
    assert |LabelBoats| != |LabelDead| && |LabelNotBoats| != |LabelDead|;
    assert |LabelBoats| != |LabelNotBoats|;
  }

  /** Every record the prober can produce keeps the record invariants, and
      names the normalised domain. */
  lemma SelectWellFormed(d: string, outcomes: seq<Outcome>)
    requires |outcomes| == 4
    ensures WellFormed(Select(d, outcomes))
    ensures Select(d, outcomes).domain == d
  {
    LabelsDiffer();
  }

  /** When the first response in range comes from candidate `k`, the record
      reports that candidate, that response's final URL and status, no
      error, and a vendor match exactly when some signature occurs in the
      lower-cased body. */
  lemma SelectFirstLive(d: string, outcomes: seq<Outcome>, k: nat)
    requires |outcomes| == 4 && k < 4
    requires IsLive(outcomes[k])
    requires forall j :: 0 <= j < k ==> !IsLive(outcomes[j])
    ensures var r := Select(d, outcomes);
            && r.triedUrl == Variants(d)[k]
            && r.finalUrl == outcomes[k].url
            && r.statusCode == Code(outcomes[k].status)
            && r.alive && r.error == ""
            && (r.poweredByBoatsgroup <==>
                  exists s :: s in Signatures && exists i :: MatchAt(Lower(outcomes[k].text), s, i))
            && r.statusLabel == (if r.poweredByBoatsgroup then LabelBoats else LabelNotBoats)
  {
    assert FirstLive(outcomes) == Some(k);
    AnyContainedSpec(Lower(outcomes[k].text), Signatures);
  }

  /** Outcomes after the first response in range do not matter. */
  lemma SelectIgnoresLaterOutcomes(d: string, outcomes: seq<Outcome>, other: seq<Outcome>, k: nat)
    requires |outcomes| == 4 && |other| == 4 && k < 4
    requires FirstLive(outcomes) == Some(k)
    requires outcomes[..k + 1] == other[..k + 1]
    ensures Select(d, other) == Select(d, outcomes)
  {
    assert forall j :: 0 <= j <= k ==> other[j] == outcomes[..k + 1][j] == outcomes[j];
    var f := FirstLive(other);
    assert f == Some(k) by {
      assert IsLive(other[k]);
      assert forall j :: 0 <= j < k ==> !IsLive(other[j]);
    }
  }

  /** An exception or an out-of-range response never becomes the record:
      the candidate it came from is never the one reported. */
  lemma SelectSkipsFailedAttempts(d: string, outcomes: seq<Outcome>, i: nat)
    requires |outcomes| == 4 && i < 4
    requires !IsLive(outcomes[i])
    ensures Select(d, outcomes).triedUrl != Variants(d)[i]
  {
    VariantsDistinct(d);
  }

  /** With no response in range, the record is the dead one, whose error
      is the message of the last exception, or "No valid response" when
      none was raised. */
  lemma SelectDead(d: string, outcomes: seq<Outcome>)
    requires |outcomes| == 4
    requires forall j :: 0 <= j < 4 ==> !IsLive(outcomes[j])
    ensures var r := Select(d, outcomes);
            && r.triedUrl == AllFailed && r.finalUrl == "" && r.statusCode == NotAvailable
            && !r.alive && !r.poweredByBoatsgroup && r.statusLabel == LabelDead
            && ((forall j :: 0 <= j < 4 ==> !outcomes[j].Raised?) ==> r.error == NoValidResponse)
            && (forall k :: 0 <= k < 4 && outcomes[k].Raised?
                  && (forall j :: k < j < 4 ==> !outcomes[j].Raised?)
                  ==> r.error == outcomes[k].message)
  {
    var e := LastRaised(outcomes);
    forall k | 0 <= k < 4 && outcomes[k].Raised? && (forall j :: k < j < 4 ==> !outcomes[j].Raised?)
      ensures e == Some(outcomes[k].message)
    {
      var k' :| 0 <= k' < 4 && outcomes[k'] == Raised(e.value)
                && forall j :: k' < j < 4 ==> !outcomes[j].Raised?;
      assert !(k < k') && !(k' < k);
    }
  }

  // ---------------------------------------------------------------------
  // main

  /** A line is skipped when nothing but whitespace is on it. */
  predicate IsBlank(line: string) {
    Strip(line, Whitespace) == []
  }

  /** The normalisation of every line that is not blank, in file order,
      duplicates kept. */
  function NormalizedLines(lines: seq<string>): seq<string> {
    if lines == [] then
      []
    else
      (if IsBlank(lines[0]) then [] else [Normalize(lines[0])]) + NormalizedLines(lines[1..])
  }

  /** The normalised lines are the normalisations of the non-blank lines,
      and nothing else. */
  lemma {:induction false} NormalizedLinesSpec(lines: seq<string>)
    ensures forall x :: x in NormalizedLines(lines) <==>
              exists i :: 0 <= i < |lines| && !IsBlank(lines[i]) && x == Normalize(lines[i])
  {
    if lines != [] {
      NormalizedLinesSpec(lines[1..]);
      assert forall i :: 1 <= i < |lines| ==> lines[1..][i - 1] == lines[i];
    }
  }

  /** The domains main probes, in the order it probes them. */
  function Domains(lines: seq<string>): seq<string> {
    SortedDistinct(NormalizedLines(lines))
  }

  /** The domains are exactly the normalisations of the non-blank lines,
      in strictly ascending order, one per distinct normalised value. */
  lemma DomainsSpec(lines: seq<string>)
    ensures StrictlySorted(Domains(lines))
    ensures forall x :: x in Domains(lines) <==>
              exists i :: 0 <= i < |lines| && !IsBlank(lines[i]) && x == Normalize(lines[i])
    ensures |Domains(lines)| == |Elements(NormalizedLines(lines))|
  {
    var ds := Domains(lines);
    NormalizedLinesSpec(lines);
    StrictlySortedCardinality(ds);
    assert Elements(ds) == Elements(NormalizedLines(lines));
  }

  /** The records main collects for `domains`: the prober's record for
      each domain, in the same order. */
  function Reports(domains: seq<string>, probe: string -> seq<Outcome>): seq<ProbeResult>
    requires forall d :: |probe(d)| == 4
  {
    if domains == [] then []
    else
      var last := domains[|domains| - 1];
      Reports(domains[..|domains| - 1], probe) + [Probe(last, probe(last))]
  }

  /** One record per domain, the `k`-th being the prober's record for the
      `k`-th domain. */
  lemma {:induction false} ReportsAt(domains: seq<string>, probe: string -> seq<Outcome>)
    requires forall d :: |probe(d)| == 4
    ensures |Reports(domains, probe)| == |domains|
    ensures forall k :: 0 <= k < |domains| ==>
              Reports(domains, probe)[k] == Probe(domains[k], probe(domains[k]))
  {
    if domains != [] {
      var init := domains[..|domains| - 1];
      ReportsAt(init, probe);
      assert forall k :: 0 <= k < |init| ==> domains[k] == init[k];
    }
  }

  /** The records of one more domain are those of the domains before it
      followed by its own. */
  lemma ReportsNext(domains: seq<string>, i: nat, probe: string -> seq<Outcome>)
    requires forall d :: |probe(d)| == 4
    requires i < |domains|
    ensures Reports(domains[..i + 1], probe)
            == Reports(domains[..i], probe) + [Probe(domains[i], probe(domains[i]))]
  {
    assert domains[..i + 1][..i] == domains[..i];
  }

  /** Every record main collects names its normalised domain and keeps the
      record invariants. */
  lemma ReportsWellFormed(domains: seq<string>, probe: string -> seq<Outcome>)
    requires forall d :: |probe(d)| == 4
    ensures |Reports(domains, probe)| == |domains|
    ensures forall k :: 0 <= k < |domains| ==>
              Reports(domains, probe)[k].domain == Normalize(domains[k])
              && WellFormed(Reports(domains, probe)[k])
  {
    ReportsAt(domains, probe);
    forall k | 0 <= k < |domains|
      ensures Reports(domains, probe)[k].domain == Normalize(domains[k])
      ensures WellFormed(Reports(domains, probe)[k])
    {
      SelectWellFormed(Normalize(domains[k]), probe(domains[k]));
    }
  }

  /** The main loop over the sorted distinct domains, with the network
      replaced by `probe`, which gives the four outcomes for a domain. The
      `seen` check never skips a domain, so there is one record per domain,
      in the same order. */
  method Run(lines: seq<string>, probe: string -> seq<Outcome>) returns (results: seq<ProbeResult>)
    requires forall d :: |probe(d)| == 4
    ensures results == Reports(Domains(lines), probe)
    ensures |results| == |Domains(lines)|
  {
    var seen: set<string> := {};
    results := [];
    var domains := NormalizedLines(lines);
    var sorted := SortedDistinct(domains);
    for i := 0 to |sorted|
      invariant seen == Elements(sorted[..i])
      invariant results == Reports(sorted[..i], probe)
      invariant |results| == i
    {
      var domain := sorted[i];
      StrictlySortedNext(sorted, i);
      if domain in seen {
        continue;
      }
      seen := seen + {domain};
      var result := CheckDomain(domain, probe(domain));
      ReportsNext(sorted, i, probe);
      results := results + [result];
    }
    assert sorted[..|sorted|] == sorted;
  }

  /** The record's domain column is normalised once more inside the prober,
      so two different domains of the loop can give records with the same
      domain column: "hthttp://tp://x" is probed as "http://x", whose
      record says "x", like the record of the line "x". */
  lemma DomainColumnMayRepeat()
    ensures Domains(["x", "hthttp://tp://x"]) == ["http://x", "x"]
    ensures Normalize("http://x") == "x" && Normalize("x") == "x"
  {
    LinesExample();
    SortedExample();
    NormalizeHttpX();
    NormalizeX();
  }

  lemma LinesExample()
    ensures NormalizedLines(["x", "hthttp://tp://x"]) == ["x", "http://x"]
  {
    var lines := ["x", "hthttp://tp://x"];
    NormalizeX();
    NormalizeJoinsScheme();
    StripUnpadded("x", Whitespace);
    StripJoinsScheme();
    assert lines[1..] == ["hthttp://tp://x"];
    assert lines[1..][1..] == [];
  }

  lemma SortedExample()
    ensures SortedDistinct(["x", "http://x"]) == ["http://x", "x"]
  {
    var want := ["http://x", "x"];
    assert Less("http://x", "x");
    assert StrictlySorted(want);
    StrictlySortedUnique(SortedDistinct(["x", "http://x"]), want);
  }
}
