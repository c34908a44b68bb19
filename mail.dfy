/** The mail text both monitors hand to `sendmail`, and a reader for it that recovers the
    header lines and the content. */
module Mail {
  import opened Wrappers
  import opened Strings

  const ContentType := "Content-Type: text/plain; charset=utf-8"
  const Encoding := "Content-Transfer-Encoding: 8bit"

  /** The template of pgrp.py:126-134 and monitor_pgrp.py:58-66: five header lines, a blank
      line, the content, and a final newline. */
  function MailText(sender: string, recipient: string, subject: string, content: string): string {
    "From: " + sender + "\n"
    + ("To: " + recipient + "\n"
    + ("Subject: " + subject + "\n"
    + (ContentType + "\n"
    + (Encoding + "\n"
    + ("\n"
    + (content + "\n"))))))
  }

  function HeaderLines(sender: string, recipient: string, subject: string): seq<string> {
    [ "From: " + sender,
      "To: " + recipient,
      "Subject: " + subject,
      ContentType,
      Encoding ]
  }

  datatype Message = Message(headers: seq<string>, content: string)

  /** The index of the first empty line, if any. */
  function FirstBlank(lines: seq<string>): (r: Option<nat>)
    ensures r.Some? ==> r.value < |lines| && lines[r.value] == ""
                        && forall j :: 0 <= j < r.value ==> lines[j] != ""
    ensures r.None? ==> forall j :: 0 <= j < |lines| ==> lines[j] != ""
  {
    if lines == [] then None
    else if lines[0] == "" then Some(0)
    else
      match FirstBlank(lines[1..])
      case None => None
      case Some(k) => Some(k + 1)
  }

  /** Reads a mail text: the lines before the first blank line are the headers, and what
      follows the blank line, less the final newline, is the content. */
  function ParseMail(text: string): Option<Message> {
    var lines := Split(text, {'\n'});
    match FirstBlank(lines)
    case None => None
    case Some(k) =>
      if k + 1 < |lines| && lines[|lines| - 1] == "" then
        Some(Message(lines[..k], Join(lines[k + 1..|lines| - 1], "\n")))
      else None
  }

  /** The template puts the headers in one line each and keeps the content intact: reading
      the mail back gives exactly the five header lines and the content, whatever the
      content holds, as long as the three header values hold no newline. */
  lemma MailRoundTrip(sender: string, recipient: string, subject: string, content: string)
    requires Avoids(sender, {'\n'}) && Avoids(recipient, {'\n'}) && Avoids(subject, {'\n'})
    ensures ParseMail(MailText(sender, recipient, subject, content))
            == Some(Message(HeaderLines(sender, recipient, subject), content))
  {
    var text := MailText(sender, recipient, subject, content);
    var h := HeaderLines(sender, recipient, subject);
    MailLines(sender, recipient, subject, content);
    assert forall j :: 0 <= j < |h| ==> h[j] != "" by {
      assert h[0][..6] == "From: " && h[1][..4] == "To: " && h[2][..9] == "Subject: ";
    }
    ParseLines(text, h, Split(content, {'\n'}));
    JoinSplit(content, '\n');
  }

  /** A text whose lines are non-empty header lines, an empty line, some body lines and the
      empty piece after a final newline reads as those headers and the joined body. */
  lemma ParseLines(text: string, h: seq<string>, body: seq<string>)
    requires Split(text, {'\n'}) == h + [""] + body + [""]
    requires forall j :: 0 <= j < |h| ==> h[j] != ""
    ensures ParseMail(text) == Some(Message(h, Join(body, "\n")))
  {
    var lines := Split(text, {'\n'});
    assert lines[|h|] == "";
    assert forall j :: 0 <= j < |h| ==> lines[j] == h[j];
    assert FirstBlank(lines) == Some(|h|);
    assert lines[..|h|] == h;
    assert lines[|h| + 1..|lines| - 1] == body;
  }

  /** The lines of a mail text: the header lines, one empty line, the content's lines, and
      the empty piece after the final newline. */
  lemma MailLines(sender: string, recipient: string, subject: string, content: string)
    requires Avoids(sender, {'\n'}) && Avoids(recipient, {'\n'}) && Avoids(subject, {'\n'})
    ensures Split(MailText(sender, recipient, subject, content), {'\n'})
            == HeaderLines(sender, recipient, subject) + [""] + Split(content, {'\n'}) + [""]
  {
    var nl := {'\n'};
    var h := HeaderLines(sender, recipient, subject);
    var r5 := content + "\n";
    var r4 := "\n" + r5;
    var r3 := Encoding + "\n" + r4;
    var r2 := ContentType + "\n" + r3;
    var r1 := "Subject: " + subject + "\n" + r2;
    var r0 := "To: " + recipient + "\n" + r1;
    HeaderLinesAvoidNewline(sender, recipient, subject);
    SplitLine(h[0], r0, nl);
    SplitLine(h[1], r1, nl);
    SplitLine(h[2], r2, nl);
    SplitLine(h[3], r3, nl);
    SplitLine(h[4], r4, nl);
    assert r4 == "" + "\n" + r5;
    SplitLine("", r5, nl);
    assert r5 == content + ['\n'] + "";
    SplitAround(content, '\n', "", nl);
    var rest := [""] + (Split(content, nl) + [""]);
    assert Split(MailText(sender, recipient, subject, content), nl)
           == [h[0]] + ([h[1]] + ([h[2]] + ([h[3]] + ([h[4]] + rest)))) by {
      assert MailText(sender, recipient, subject, content) == h[0] + "\n" + r0;
    }
    PrependFive(h, rest);
  }

  lemma HeaderLinesAvoidNewline(sender: string, recipient: string, subject: string)
    requires Avoids(sender, {'\n'}) && Avoids(recipient, {'\n'}) && Avoids(subject, {'\n'})
    ensures forall k :: 0 <= k < 5 ==> Avoids(HeaderLines(sender, recipient, subject)[k], {'\n'})
  {
    var nl := {'\n'};
    AvoidsConcat("From: ", sender, nl);
    AvoidsConcat("To: ", recipient, nl);
    AvoidsConcat("Subject: ", subject, nl);
  }
}
