/**
 * The recipient list read from the environment at start-up
 * (server.ts:10-13), as written and as evidently intended.
 */
module Config {
  import opened Wrappers
  import opened Text

  /**
   * `xs.forEach(f)`: runs `f` on each element for its effect only and
   * evaluates to `undefined`, whatever `f` returns.
   */
  function ForEach(xs: seq<string>, f: string -> string): (r: Option<seq<string>>) {
    None
  }

  /**
   * `RECEIVER_EMAILS` as written: `env?.split(",").forEach((s) => s.trim())`,
   * where `env` is the `RECEIVER_EMAILS` environment variable.
   */
  function ReceiverEmails(env: Option<string>): (r: Option<seq<string>>) {
    if env.None? then None else ForEach(Split(env.value, ','), Trim)
  }

  /** Whatever the environment holds, the configured list is `undefined`. */
  lemma ReceiverEmailsAlwaysAbsent(env: Option<string>)
    ensures ReceiverEmails(env) == None
  {
  }

  /** The evidently intended list: `env?.split(",").map((s) => s.trim())`. */
  function ReceiverEmailsIntended(env: Option<string>): (r: Option<seq<string>>)
    ensures r.Some? <==> env.Some?
    ensures r.Some? ==> |r.value| == |Split(env.value, ',')|
    ensures r.Some? ==> forall k :: 0 <= k < |r.value| ==> r.value[k] == Trim(Split(env.value, ',')[k])
  {
    if env.None? then None else Some(TrimEach(Split(env.value, ',')))
  }

  /**
   * When no address carries white space at either end, the intended list
   * joined with commas is the variable's value again.
   */
  lemma IntendedRecipientsRoundTrip(env: string)
    requires forall k :: 0 <= k < |Split(env, ',')| ==> Trim(Split(env, ',')[k]) == Split(env, ',')[k]
    ensures ReceiverEmailsIntended(Some(env)) == Some(Split(env, ','))
    ensures Join(ReceiverEmailsIntended(Some(env)).value, ",") == env
  {
    TrimEachOfTrimmed(Split(env, ','));
    JoinSplit(env, ',');
  }

  /**
   * Two addresses separated by a comma: the list as written is lost, the
   * intended one holds both addresses, in order.
   */
  lemma TwoAddresses(a: string, b: string)
    requires ',' !in a && ',' !in b
    requires Trim(a) == a && Trim(b) == b
    ensures ReceiverEmails(Some(a + "," + b)) == None
    ensures ReceiverEmailsIntended(Some(a + "," + b)) == Some([a, b])
  {
    var pieces := [a, b];
    assert Join(pieces, [',']) == a + "," + b;
    SplitJoin(pieces, ',');
    TrimEachOfTrimmed(pieces);
  }
}
