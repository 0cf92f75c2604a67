/**
 * The header lookups of app.py: the `From` and `Subject` values of a message,
 * each taken from the first header with that exact name, with a fixed text
 * when there is none, and the records the two endpoints build from them.
 */
module Headers {
  import opened SenderName
  import opened MimeBody
  import opened Base64Url

  datatype Header = Header(name: string, value: string)

  const FromHeader: string := "From"
  const SubjectHeader: string := "Subject"
  const UnknownSender: string := "Unknown Sender"
  const NoSubject: string := "No Subject"

  /** No header before position `i` is called `name`. */
  predicate NoneBefore(headers: seq<Header>, i: nat, name: string)
    requires i <= |headers|
  {
    forall k | 0 <= k < i :: headers[k].name != name
  }

  /**
   * The value of the first header called exactly `name` (the comparison is
   * case-sensitive), or `default` when there is none.
   */
  function FirstValue(headers: seq<Header>, name: string, default: string): (r: string)
    ensures (forall i | 0 <= i < |headers| :: headers[i].name != name) ==> r == default
    ensures forall i | 0 <= i < |headers| && headers[i].name == name && NoneBefore(headers, i, name) ::
      r == headers[i].value
  {
    if headers == [] then default
    else if headers[0].name == name then headers[0].value
    else FirstValue(headers[1..], name, default)
  }

  /** A header added in front of the list decides the lookup when it has the name, and is skipped otherwise. */
  lemma FirstValueCons(h: Header, headers: seq<Header>, name: string, default: string)
    ensures FirstValue([h] + headers, name, default)
      == if h.name == name then h.value else FirstValue(headers, name, default)
  {
    assert ([h] + headers)[1..] == headers;
  }

  /** Headers with other names may be added after the list without changing the lookup. */
  lemma {:induction false} FirstValueAppendOther(headers: seq<Header>, more: seq<Header>, name: string, default: string)
    requires exists i | 0 <= i < |headers| :: headers[i].name == name
    ensures FirstValue(headers + more, name, default) == FirstValue(headers, name, default)
  {
    if headers[0].name != name {
      var i :| 0 <= i < |headers| && headers[i].name == name;
      assert headers[1..][i - 1].name == name;
      assert (headers + more)[1..] == headers[1..] + more;
      FirstValueAppendOther(headers[1..], more, name, default);
    }
  }

  /** The sender and subject that the unread list reports for one message. */
  datatype Summary = Summary(sender: string, senderFull: string, subject: string)

  function Summarize(headers: seq<Header>): (r: Summary)
    ensures r.senderFull == FirstValue(headers, FromHeader, UnknownSender)
    ensures r.subject == FirstValue(headers, SubjectHeader, NoSubject)
    ensures r.sender == ExtractSenderName(r.senderFull)
    ensures (forall i | 0 <= i < |headers| :: headers[i].name != FromHeader) ==>
      r.sender == UnknownSender && r.senderFull == UnknownSender
    ensures (forall i | 0 <= i < |headers| :: headers[i].name != SubjectHeader) ==> r.subject == NoSubject
  {
    var full := FirstValue(headers, FromHeader, UnknownSender);
    Summary(ExtractSenderName(full), full, FirstValue(headers, SubjectHeader, NoSubject))
  }

  /** A fetched message: its headers and its payload tree. */
  datatype Message = Message(headers: seq<Header>, payload: Part)

  /** What the content endpoint returns for a message. */
  datatype Content = Content(senderName: string, senderFull: string, subject: string, body: string)

  function ContentOf(msg: Message, utf8: Utf8Decoder): (r: Content)
    requires WellFormed(msg.payload)
    ensures r.senderFull == FirstValue(msg.headers, FromHeader, UnknownSender)
    ensures r.senderName == ExtractSenderName(r.senderFull)
    ensures r.subject == FirstValue(msg.headers, SubjectHeader, NoSubject)
    ensures (forall i | 0 <= i < |msg.headers| :: msg.headers[i].name != FromHeader) ==>
      r.senderName == UnknownSender && r.senderFull == UnknownSender
    ensures (forall i | 0 <= i < |msg.headers| :: msg.headers[i].name != SubjectHeader) ==> r.subject == NoSubject
    ensures r.body == EmailBody(msg.payload, utf8)
  {
    var s := Summarize(msg.headers);
    Content(s.sender, s.senderFull, s.subject, EmailBody(msg.payload, utf8))
  }

  /** A `From` header written as `Name <address>` surfaces as the name, whatever headers follow. */
  lemma SenderFromFormattedHeader(n: string, a: string, rest: seq<Header>)
    requires Trimmed(n) && NoChar(n, '<') && !(n[0] == '"' && n[|n| - 1] == '"')
    requires a != [] && NoChar(a, '>')
    ensures Summarize([Header(FromHeader, n + " <" + a + ">")] + rest).sender == n
  {
    FirstValueCons(Header(FromHeader, n + " <" + a + ">"), rest, FromHeader, UnknownSender);
    FormatThenExtract(n, a);
  }
}
