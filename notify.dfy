/**
 * Message construction in `sendEmail` (server.ts:31-63). Creating the
 * transport and handing each message to it are left to the SMTP library;
 * the model stops at the list of messages built, in the order the loop
 * builds them.
 */
module Notify {
  import opened Wrappers
  import opened Text

  datatype Message = Message(from: string, to: string, subject: string, text: string)

  const Subject: string := "Joe's Ice Cream has Peachy Kiwi!"

  /** A template-literal substitution `${v}` of a string that may be `undefined`. */
  function Interpolate(v: Option<string>): (r: string) {
    if v.None? then "undefined" else v.value
  }

  /** The sender line, built from the configured SMTP user. */
  function Sender(smtpUser: Option<string>): (r: string) {
    "Joe Lee <" + Interpolate(smtpUser) + ">"
  }

  /** The message text: a header, one flavor per line, then the date's text. */
  function Body(flavors: seq<string>, dateText: string): (r: string) {
    "Flavors:\n\n" + Join(flavors, "\n") + "\n\n" + dateText
  }

  /** One message per recipient, in list order, all with the same sender, subject and text. */
  function MessagesFor(recipients: seq<string>, from: string, text: string): (r: seq<Message>)
    ensures |r| == |recipients|
    ensures forall k :: 0 <= k < |r| ==> r[k] == Message(from, recipients[k], Subject, text)
  {
    if recipients == [] then []
    else [Message(from, recipients[0], Subject, text)] + MessagesFor(recipients[1..], from, text)
  }

  /**
   * The flavor section of the body is the flavors joined by line breaks:
   * splitting it at line breaks gives the flavors back, as long as no
   * flavor holds a line break itself.
   */
  lemma BodyListsFlavors(flavors: seq<string>, dateText: string)
    requires |flavors| >= 1
    requires forall k :: 0 <= k < |flavors| ==> '\n' !in flavors[k]
    ensures var b := Body(flavors, dateText);
      |b| >= 12 + |dateText|
      && b[..10] == "Flavors:\n\n"
      && b[|b| - |dateText|..] == dateText
      && Split(b[10..|b| - 2 - |dateText|], '\n') == flavors
  {
    var section := Join(flavors, "\n");
    var b := Body(flavors, dateText);
    assert b == "Flavors:\n\n" + section + "\n\n" + dateText;
    assert b[10..|b| - 2 - |dateText|] == section;
    SplitJoin(flavors, '\n');
  }

  /**
   * `sendEmail(result)` from the recipient guard on: nothing is built when
   * the recipient list is `undefined`, otherwise one message per recipient.
   */
  method SendEmail(recipients: Option<seq<string>>, smtpUser: Option<string>,
                   flavors: seq<string>, dateText: string)
    returns (sent: seq<Message>)
    ensures recipients.None? ==> sent == []
    ensures recipients.Some? ==> sent == MessagesFor(recipients.value, Sender(smtpUser), Body(flavors, dateText))
  {
    sent := [];
    if recipients.None? {
      return;
    }
    var receivers := recipients.value;
    var from := Sender(smtpUser);
    var text := Body(flavors, dateText);
    var k := 0;
    while k < |receivers|
      invariant 0 <= k <= |receivers|
      invariant |sent| == k
      invariant forall m :: 0 <= m < k ==> sent[m] == Message(from, receivers[m], Subject, text)
    {
      var msg := Message(from, receivers[k], Subject, text);
      sent := sent + [msg];
      k := k + 1;
    }
  }
}
