/**
 * `job()` (server.ts:94-113) and the module-level `result` object it
 * updates (server.ts:15-23). `result` is created once and never reset, so
 * every scheduled run appends to the same flavor list and the match sees
 * the flavors of all earlier runs too.
 */
module Job {
  import opened Wrappers
  import opened Text
  import opened Scraper
  import opened Notify

  /**
   * What `parseDateString` returns. Parsing with date-fns is outside the
   * model, so a date is represented by the token it was parsed from;
   * `None` is the `undefined` read past the start of an empty list.
   */
  datatype Date = ParsedFrom(token: Option<string>)

  /**
   * `parseDateString(dateStr)`: for a string argument date-fns yields a
   * `Date` object (an invalid one when the text does not match), and a
   * `Date` is truthy, so the `|| null` fallback never applies. The model
   * treats the `undefined` argument (`None`) the same way.
   */
  function ParseDateString(dateStr: Option<string>): (d: Date) {
    ParsedFrom(dateStr)
  }

  /** `${result.date}`: "null" before any run, otherwise the date's own rendering. */
  function DateText(date: Option<Date>, render: Date -> string): (text: string) {
    if date.None? then "null" else render(date.value)
  }

  const Keyword: string := "peachy kiwi"

  /** `f.toLowerCase().includes("peachy kiwi")` */
  predicate MentionsKeyword(flavor: string) {
    Includes(Lower(flavor), Keyword)
  }

  /** `result.flavors.some(...)` */
  predicate Found(flavors: seq<string>) {
    exists i :: 0 <= i < |flavors| && MentionsKeyword(flavors[i])
  }

  /**
   * The token the date is parsed from, in terms of the scraped list: after
   * the pop, the last token is the second-to-last one scraped.
   */
  function DateToken(tokens: seq<string>): (r: Option<string>) {
    if |tokens| >= 2 then Some(tokens[|tokens| - 2]) else None
  }

  /**
   * The tokens one run appends to `result.flavors`, in terms of the scraped
   * list: indices 3 through n - 3, none at all below six tokens.
   */
  function FlavorTokens(tokens: seq<string>): (r: seq<string>)
    ensures |r| == if |tokens| >= 5 then |tokens| - 5 else 0
    ensures forall k :: 0 <= k < |r| ==> r[k] == tokens[k + 3]
  {
    if |tokens| >= 6 then tokens[3..|tokens| - 2] else []
  }

  /**
   * The popped last token is used for nothing: replacing it changes
   * neither the date token nor the flavors, and the date token is the
   * last token left after the pop.
   */
  lemma PoppedTokenUnused(tokens: seq<string>, x: string, y: string)
    ensures DateToken(tokens + [x]) == DateToken(tokens + [y])
    ensures FlavorTokens(tokens + [x]) == FlavorTokens(tokens + [y])
    ensures DateToken(tokens + [x]) == if tokens == [] then None else Some(tokens[|tokens| - 1])
  {
    var fx, fy := FlavorTokens(tokens + [x]), FlavorTokens(tokens + [y]);
    assert |fx| == |fy|;
    forall k | 0 <= k < |fx|
      ensures fx[k] == fy[k]
    {
      assert fx[k] == (tokens + [x])[k + 3] == tokens[k + 3];
    }
  }

  /**
   * An eight-token listing: the date comes from the seventh token and the
   * flavors are the fourth to sixth.
   */
  lemma EightTokenListing(tokens: seq<string>)
    requires |tokens| == 8
    ensures DateToken(tokens) == Some(tokens[6])
    ensures FlavorTokens(tokens) == [tokens[3], tokens[4], tokens[5]]
  {
    var f := FlavorTokens(tokens);
    assert f == [f[0], f[1], f[2]];
  }

  /** The match over a joined list is the match over either part. */
  lemma FoundConcat(before: seq<string>, added: seq<string>)
    ensures Found(before + added) <==> Found(before) || Found(added)
  {
    var all := before + added;
    if Found(before) {
      var i :| 0 <= i < |before| && MentionsKeyword(before[i]);
      assert all[i] == before[i];
    }
    if Found(added) {
      var i :| 0 <= i < |added| && MentionsKeyword(added[i]);
      assert all[|before| + i] == added[i];
    }
    if Found(all) {
      var i :| 0 <= i < |all| && MentionsKeyword(all[i]);
      if i < |before| {
        assert before[i] == all[i];
      } else {
        assert added[i - |before|] == all[i];
      }
    }
  }

  lemma {:induction false} LowerAppend(a: string, b: string)
    ensures Lower(a + b) == Lower(a) + Lower(b)
  {
    var l, r := Lower(a + b), Lower(a) + Lower(b);
    assert |l| == |r|;
    forall i | 0 <= i < |l|
      ensures l[i] == r[i]
    {
      if i < |a| {
        assert (a + b)[i] == a[i];
      } else {
        assert (a + b)[i] == b[i - |a|];
      }
    }
  }

  /** The match ignores letter case: a flavor matches exactly when its lower-cased form does. */
  lemma MatchIgnoresCase(flavor: string)
    ensures MentionsKeyword(flavor) <==> MentionsKeyword(Lower(flavor))
  {
    LowerIdempotent(flavor);
  }

  /** A flavor that holds the phrase in any letter case, anywhere, matches. */
  lemma PhraseAnywhereMatches(before: string, phrase: string, after: string)
    requires Lower(phrase) == Keyword
    ensures MentionsKeyword(before + phrase + after)
  {
    var s := Lower(before + phrase + after);
    LowerAppend(before + phrase, after);
    LowerAppend(before, phrase);
    assert s == Lower(before) + Keyword + Lower(after);
    var at := |Lower(before)|;
    assert s[at..][..|Keyword|] == Keyword;
    assert StartsWith(s[at..], Keyword);
  }

  datatype Snapshot = Snapshot(flavors: seq<string>, date: Option<Date>)

  /**
   * How one call of `job()` ends: aborted by the `assert` when `scrape`
   * returned `undefined`, or completed with the match result, the messages
   * `sendEmail` built (`None` when it was not called) and the logged result.
   */
  datatype RunOutcome = Aborted | Completed(found: bool, mail: Option<seq<Message>>, logged: Snapshot)

  lemma AppendNext(start: seq<string>, added: seq<string>, j: nat)
    requires j < |added|
    ensures start + added[..j + 1] == start + added[..j] + [added[j]]
  {
    assert added[..j + 1] == added[..j] + [added[j]];
  }

  /** The module-level `result`: one object for the life of the process. */
  class FlavorResult {
    var flavors: seq<string>
    var date: Option<Date>

    constructor ()
      ensures flavors == [] && date == None
    {
      flavors := [];
      date := None;
    }

    /**
     * One scheduled run. `page` is what the fetch and the HTML parse
     * produced (`None` when they threw); `recipients` is `RECEIVER_EMAILS`,
     * `smtpUser` is `SMTP_USER` and `render` turns a date into its text.
     */
    method Job(page: Option<seq<Container>>, recipients: Option<seq<string>>,
               smtpUser: Option<string>, render: Date -> string)
      returns (outcome: RunOutcome)
      modifies this
      ensures page.None? ==> outcome == Aborted && flavors == old(flavors) && date == old(date)
      ensures page.Some? ==>
        var tokens := Collected(page.value);
        flavors == old(flavors) + FlavorTokens(tokens)
        && date == Some(ParseDateString(DateToken(tokens)))
      ensures page.Some? ==> outcome.Completed? && outcome.found == Found(flavors)
      ensures page.Some? ==> outcome.logged == Snapshot(flavors, date)
      ensures page.Some? && !Found(flavors) ==> outcome.mail == None
      ensures page.Some? && Found(flavors) ==> outcome.mail == Some(
        if recipients.None? then []
        else MessagesFor(recipients.value, Sender(smtpUser), Body(flavors, DateText(date, render))))
      ensures old(flavors) <= flavors
    {
      var scrapeResult := Scrape(page);
      if scrapeResult.None? {
        return Aborted;
      }
      ghost var scraped := scrapeResult.value;
      ghost var added := FlavorTokens(scraped);
      var tokens := scrapeResult.value;
      if |tokens| > 0 {
        tokens := tokens[..|tokens| - 1];
      }
      date := Some(ParseDateString(if |tokens| > 0 then Some(tokens[|tokens| - 1]) else None));
      ghost var parsed := date;
      ghost var start := flavors;
      var i := 3;
      while i < |tokens| - 1
        invariant 3 <= i <= 3 + |added|
        invariant flavors == start + added[..i - 3]
        invariant date == parsed
      {
        assert tokens[i] == added[i - 3];
        AppendNext(start, added, i - 3);
        flavors := flavors + [tokens[i]];
        i := i + 1;
      }
      assert added[..i - 3] == added;
      var found := Found(flavors);
      var mail: Option<seq<Message>> := None;
      if found {
        var sent := SendEmail(recipients, smtpUser, flavors, DateText(date, render));
        mail := Some(sent);
      }
      outcome := Completed(found, mail, Snapshot(flavors, date));
    }
  }
}
