/**
 * The token collector of `scrape` (server.ts:65-92). The fetched page is
 * given as the ordered list of `.et_pb_text_inner` containers cheerio
 * selects, each with its full text and the texts of its descendant spans
 * in document order; `None` stands for a fetch or parse that threw.
 */
module Scraper {
  import opened Wrappers
  import opened Text

  datatype Container = Container(text: string, spans: seq<string>)

  /** The location that marks the listing block to read. */
  const Location: string := "anaheim"

  predicate MentionsLocation(c: Container) {
    Includes(Lower(c.text), Location)
  }

  /** The tokens one container adds: its trimmed spans, or nothing. */
  function Contribution(c: Container): (r: seq<string>) {
    if MentionsLocation(c) then TrimEach(c.spans) else []
  }

  /** The flat token list of a page, containers in document order. */
  function Collected(doc: seq<Container>): (r: seq<string>) {
    if doc == [] then [] else Contribution(doc[0]) + Collected(doc[1..])
  }

  lemma {:induction false} CollectedAppend(a: seq<Container>, b: seq<Container>)
    ensures Collected(a + b) == Collected(a) + Collected(b)
  {
    if a == [] {
      assert a + b == b;
    } else {
      assert (a + b)[1..] == a[1..] + b;
      CollectedAppend(a[1..], b);
    }
  }

  /** A container that does not mention the location adds nothing, wherever it stands. */
  lemma NonMatchingIgnored(before: seq<Container>, c: Container, after: seq<Container>)
    requires !MentionsLocation(c)
    ensures Collected(before + [c] + after) == Collected(before + after)
  {
    calc {
      Collected(before + [c] + after);
    ==  { CollectedAppend(before + [c], after); }
      Collected(before + [c]) + Collected(after);
    ==  { CollectedAppend(before, [c]); CollectedSingle(c); }
      Collected(before) + Collected(after);
    ==  { CollectedAppend(before, after); }
      Collected(before + after);
    }
  }

  lemma CollectedSingle(c: Container)
    ensures Collected([c]) == Contribution(c)
  {
    assert [c][1..] == [];
  }

  /** With no container mentioning the location the list is empty, not an error. */
  lemma {:induction false} NoMatchNoTokens(doc: seq<Container>)
    requires forall i :: 0 <= i < |doc| ==> !MentionsLocation(doc[i])
    ensures Collected(doc) == []
  {
    if doc != [] {
      NoMatchNoTokens(doc[1..]);
    }
  }

  /**
   * A token is collected exactly when it is the trimmed text of some span
   * of some container that mentions the location.
   */
  lemma {:induction false} CollectedMembership(doc: seq<Container>, x: string)
    ensures x in Collected(doc) <==>
      exists i, j :: 0 <= i < |doc| && 0 <= j < |doc[i].spans|
        && MentionsLocation(doc[i]) && x == Trim(doc[i].spans[j])
  {
    if doc != [] {
      CollectedMembership(doc[1..], x);
      if x in Collected(doc[1..]) {
        var i, j :| 0 <= i < |doc[1..]| && 0 <= j < |doc[1..][i].spans|
          && MentionsLocation(doc[1..][i]) && x == Trim(doc[1..][i].spans[j]);
        assert doc[i + 1] == doc[1..][i];
      }
      if x in Contribution(doc[0]) {
        var j :| 0 <= j < |TrimEach(doc[0].spans)| && TrimEach(doc[0].spans)[j] == x;
        assert 0 <= j < |doc[0].spans| && x == Trim(doc[0].spans[j]);
      }
      if exists i, j :: 0 <= i < |doc| && 0 <= j < |doc[i].spans|
          && MentionsLocation(doc[i]) && x == Trim(doc[i].spans[j]) {
        var i, j :| 0 <= i < |doc| && 0 <= j < |doc[i].spans|
          && MentionsLocation(doc[i]) && x == Trim(doc[i].spans[j]);
        if i == 0 {
          assert TrimEach(doc[0].spans)[j] == x;
        } else {
          assert doc[1..][i - 1] == doc[i];
        }
      }
    }
  }

  /** Every collected token carries no white space at either end. */
  lemma CollectedAreTrimmed(doc: seq<Container>, x: string)
    requires x in Collected(doc)
    ensures Trim(x) == x
  {
    CollectedMembership(doc, x);
    var i, j :| 0 <= i < |doc| && 0 <= j < |doc[i].spans|
      && MentionsLocation(doc[i]) && x == Trim(doc[i].spans[j]);
    TrimIdempotent(doc[i].spans[j]);
  }

  /**
   * `scrape()`: `undefined` when the fetch or the parse threw, otherwise
   * the tokens the nested `.each` loops push into `res`.
   */
  method Scrape(page: Option<seq<Container>>) returns (r: Option<seq<string>>)
    ensures r.None? <==> page.None?
    ensures page.Some? ==> r == Some(Collected(page.value))
  {
    if page.None? {
      return None;
    }
    var doc := page.value;
    var res: seq<string> := [];
    var i := 0;
    while i < |doc|
      invariant 0 <= i <= |doc|
      invariant res == Collected(doc[..i])
    {
      var element := doc[i];
      ghost var before := res;
      if MentionsLocation(element) {
        var j := 0;
        while j < |element.spans|
          invariant 0 <= j <= |element.spans|
          invariant res == before + TrimEach(element.spans[..j])
        {
          TrimEachSnoc(element.spans, j);
          res := res + [Trim(element.spans[j])];
          j := j + 1;
        }
        assert element.spans[..j] == element.spans;
      }
      assert res == before + Contribution(element) by {
        if !MentionsLocation(element) {
          assert Contribution(element) == [];
        }
      }
      assert res == Collected(doc[..i + 1]) by {
        CollectedSnoc(doc, i);
      }
      i := i + 1;
    }
    assert doc[..i] == doc;
    return Some(res);
  }

  lemma CollectedSnoc(doc: seq<Container>, i: nat)
    requires i < |doc|
    ensures Collected(doc[..i + 1]) == Collected(doc[..i]) + Contribution(doc[i])
  {
    assert doc[..i + 1] == doc[..i] + [doc[i]];
    CollectedAppend(doc[..i], [doc[i]]);
    CollectedSingle(doc[i]);
  }

  lemma TrimEachSnoc(xs: seq<string>, j: nat)
    requires j < |xs|
    ensures TrimEach(xs[..j + 1]) == TrimEach(xs[..j]) + [Trim(xs[j])]
  {
    var l, r := TrimEach(xs[..j + 1]), TrimEach(xs[..j]) + [Trim(xs[j])];
    assert |l| == |r|;
    forall k | 0 <= k < |l|
      ensures l[k] == r[k]
    {
      if k < j {
        assert l[k] == Trim(xs[k]);
      }
    }
  }
}
