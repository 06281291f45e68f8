/**
 * The contact form's chat deep link. Once the email service call settles,
 * the page opens `https://wa.me/916900700844?text=` followed by a text built
 * from the form's fields: the success callback adds a line with the
 * submission date, the failure callback leaves it out. Line breaks are
 * written as `%0A`; the field values are pasted in as they are, without
 * percent-encoding. The date, the email service and the window that opens
 * the link are outside the model: the date and the outcome are parameters.
 */
module WhatsApp {
  import opened Wrappers
  import opened UrlQuery

  /** The values of the form's `name`, `phone`, `email`, `service` and
      `message` fields. */
  datatype ContactForm = ContactForm(
    name: string, phone: string, email: string, service: string, message: string)

  /** How the email service call settled. */
  datatype EmailOutcome = Sent | Failed

  /** Everything in the link before the text. */
  const ChatBase: string := "https://wa.me/916900700844?text="

  const Title: string := "*\U{1F525} New Inquiry from Website*"
  const NameLabel: string := "*\U{1F464} Name:* "
  const PhoneLabel: string := "*\U{1F4F1} Phone:* "
  const EmailLabel: string := "*\U{1F4E7} Email:* "
  const ServiceLabel: string := "*\U{1F6E0}\U{FE0F} Service:* "
  const MessageLabel: string := "*\U{1F4AC} Message:*"
  const SentOnLabel: string := "_Sent from website on "

  /** `formData.email || 'Not provided'`: an empty field is falsy. */
  function EmailShown(email: string): (r: string)
    ensures r != ""
    ensures email != "" ==> r == email
    ensures email == "" ==> r == "Not provided"
  {
    if email == "" then "Not provided" else email
  }

  /** The heading and the blank line after it; `br` is the line break. */
  function TitleLine(br: string): string
  {
    Title + br + br
  }

  /** A labelled field and the break(s) that follow it. */
  function FieldLine(heading: string, value: string, br: string): string
  {
    heading + value + br
  }

  /** The message heading, a break, then the message itself. */
  function MessageLines(message: string, br: string): string
  {
    MessageLabel + br + message
  }

  /** The closing line of the success text: `_Sent from website on <date>_`. */
  function SentLine(date: string): string
  {
    SentOnLabel + date + "_"
  }

  /** The lines before the message heading: the title, then the name,
      phone, email and service lines, with `br` for each line break. */
  function Preamble(f: ContactForm, br: string): string
  {
    TitleLine(br) +
    FieldLine(NameLabel, f.name, br) +
    FieldLine(PhoneLabel, f.phone, br) +
    FieldLine(EmailLabel, EmailShown(f.email), br) +
    FieldLine(ServiceLabel, f.service, br + br)
  }

  /** The text the failure callback builds: one template piece per line,
      `%0A` for each line break. */
  function InquiryText(f: ContactForm): string
  {
    Preamble(f, "%0A") + MessageLines(f.message, "%0A")
  }

  /** The text the success callback builds, with the date it was given. */
  function DatedInquiryText(f: ContactForm, date: string): string
  {
    Preamble(f, "%0A") + MessageLines(f.message, "%0A") + "%0A%0A" + SentLine(date)
  }

  /** The deep link for a text. */
  function ChatLink(text: string): (link: string)
    ensures |link| == |ChatBase| + |text|
    ensures link[..|ChatBase|] == ChatBase && link[|ChatBase|..] == text
  {
    ChatBase + text
  }

  /** The text of the link the submit handler opens: the success callback's
      or the failure callback's. */
  function OpenedText(f: ContactForm, date: string, outcome: EmailOutcome): string
  {
    match outcome
    case Sent => DatedInquiryText(f, date)
    case Failed => InquiryText(f)
  }

  /** The link the submit handler opens once the email call has settled. */
  function OpenedLink(f: ContactForm, date: string, outcome: EmailOutcome): string
  {
    ChatLink(OpenedText(f, date, outcome))
  }

  /** The message the inquiry is meant to deliver, with real line breaks;
      the date line only when there is a date. */
  function IntendedMessage(f: ContactForm, date: Option<string>): string
  {
    Preamble(f, "\n") + MessageLines(f.message, "\n") +
    (if date.Some? then "\n\n" + SentLine(date.value) else "")
  }

  /** The text the chat app reads from a link: `None` for a link that does
      not go to the business's chat. */
  function ReceivedText(link: string): Option<string>
  {
    var url := StripTabsAndNewlines(TrimEnd(TrimStart(link)));
    if |url| >= |ChatBase| && url[..|ChatBase|] == ChatBase
    then Some(Unescape(ValuePart(url[|ChatBase|..])))
    else None
  }

  /** Whether `t` occurs in `s`. */
  predicate Contains(s: string, t: string)
  {
    exists i :: 0 <= i <= |s| && t <= s[i..]
  }

  lemma ContainsAt(s: string, a: string, t: string, b: string)
    requires s == a + t + b
    ensures Contains(s, t)
  {
    assert s[|a|..] == t + b;
  }

  /** The success text is the failure text followed by the date line. */
  lemma DatedTextExtendsText(f: ContactForm, date: string)
    ensures DatedInquiryText(f, date) == InquiryText(f) + "%0A%0A" + SentLine(date)
  {
  }

  /** The success variant ends with the date line; the failure variant
      ends with the message itself. */
  lemma TextEndings(f: ContactForm, date: string)
    ensures var t := DatedInquiryText(f, date);
      |t| >= |SentLine(date)| && t[|t| - |SentLine(date)|..] == SentLine(date)
    ensures var t := InquiryText(f);
      |t| >= |f.message| && t[|t| - |f.message|..] == f.message
  {
    DatedTextExtendsText(f, date);
    var t := InquiryText(f);
    var m := MessageLines(f.message, "%0A");
    var before := TitleLine("%0A") +
      FieldLine(NameLabel, f.name, "%0A") +
      FieldLine(PhoneLabel, f.phone, "%0A") +
      FieldLine(EmailLabel, EmailShown(f.email), "%0A") +
      FieldLine(ServiceLabel, f.service, "%0A" + "%0A");
    assert t == before + m;
    assert m[|m| - |f.message|..] == f.message;
    assert t[|t| - |f.message|..] == m[|m| - |f.message|..];
  }

  lemma ContainsAppend(s: string, t: string, after: string)
    requires Contains(s, t)
    ensures Contains(s + after, t)
  {
    var i :| 0 <= i <= |s| && t <= s[i..];
    assert (s + after)[i..] == s[i..] + after;
  }

  lemma ContainsPrepend(before: string, s: string, t: string)
    requires Contains(s, t)
    ensures Contains(before + s, t)
  {
    var i :| 0 <= i <= |s| && t <= s[i..];
    assert (before + s)[|before| + i..] == s[i..];
  }

  lemma FieldLineCarriesValue(heading: string, value: string, br: string)
    ensures Contains(FieldLine(heading, value, br), value)
  {
    ContainsAt(FieldLine(heading, value, br), heading, value, br);
  }

  /** The failure text carries every field verbatim. */
  lemma TextCarriesTheFields(f: ContactForm)
    ensures Contains(InquiryText(f), f.name) && Contains(InquiryText(f), f.phone)
    ensures Contains(InquiryText(f), EmailShown(f.email))
    ensures Contains(InquiryText(f), f.service) && Contains(InquiryText(f), f.message)
  {
    var t0 := TitleLine("%0A");
    var n := FieldLine(NameLabel, f.name, "%0A");
    var p := FieldLine(PhoneLabel, f.phone, "%0A");
    var e := FieldLine(EmailLabel, EmailShown(f.email), "%0A");
    var s := FieldLine(ServiceLabel, f.service, "%0A" + "%0A");
    var m := MessageLines(f.message, "%0A");
    FieldLineCarriesValue(NameLabel, f.name, "%0A");
    ContainsPrepend(t0, n, f.name);
    ContainsAppend(t0 + n, f.name, p);
    ContainsAppend(t0 + n + p, f.name, e);
    ContainsAppend(t0 + n + p + e, f.name, s);
    ContainsAppend(t0 + n + p + e + s, f.name, m);
    FieldLineCarriesValue(PhoneLabel, f.phone, "%0A");
    ContainsPrepend(t0 + n, p, f.phone);
    ContainsAppend(t0 + n + p, f.phone, e);
    ContainsAppend(t0 + n + p + e, f.phone, s);
    ContainsAppend(t0 + n + p + e + s, f.phone, m);
    FieldLineCarriesValue(EmailLabel, EmailShown(f.email), "%0A");
    ContainsPrepend(t0 + n + p, e, EmailShown(f.email));
    ContainsAppend(t0 + n + p + e, EmailShown(f.email), s);
    ContainsAppend(t0 + n + p + e + s, EmailShown(f.email), m);
    FieldLineCarriesValue(ServiceLabel, f.service, "%0A" + "%0A");
    ContainsPrepend(t0 + n + p + e, s, f.service);
    ContainsAppend(t0 + n + p + e + s, f.service, m);
    ContainsAt(m, MessageLabel + "%0A", f.message, "");
    ContainsPrepend(t0 + n + p + e + s, m, f.message);
  }

  /** Whichever way the email call settles, the text carries the name,
      phone, service and message verbatim, and the email or `Not
      provided`. */
  lemma OpenedTextCarriesTheFields(f: ContactForm, date: string, outcome: EmailOutcome)
    ensures var t := OpenedText(f, date, outcome);
      Contains(t, f.name) && Contains(t, f.phone) && Contains(t, EmailShown(f.email)) &&
      Contains(t, f.service) && Contains(t, f.message)
  {
    TextCarriesTheFields(f);
    if outcome == Sent {
      DatedTextCarries(f, date, f.name);
      DatedTextCarries(f, date, f.phone);
      DatedTextCarries(f, date, EmailShown(f.email));
      DatedTextCarries(f, date, f.service);
      DatedTextCarries(f, date, f.message);
    }
  }

  lemma DatedTextCarries(f: ContactForm, date: string, v: string)
    requires Contains(InquiryText(f), v)
    ensures Contains(DatedInquiryText(f, date), v)
  {
    DatedTextExtendsText(f, date);
    ContainsAppend(InquiryText(f), v, "%0A%0A");
    ContainsAppend(InquiryText(f) + "%0A%0A", v, SentLine(date));
  }

  /** Whichever way the email call settles, the one link opened goes to the
      business's chat number and carries the name, phone, service and
      message verbatim, and the email or `Not provided`. */
  lemma LinkCarriesTheFields(f: ContactForm, date: string, outcome: EmailOutcome)
    ensures var link := OpenedLink(f, date, outcome);
      link[..|ChatBase|] == ChatBase &&
      Contains(link, f.name) && Contains(link, f.phone) &&
      Contains(link, EmailShown(f.email)) &&
      Contains(link, f.service) && Contains(link, f.message)
    ensures outcome == Sent ==> Contains(OpenedLink(f, date, outcome), SentLine(date))
  {
    var t := OpenedText(f, date, outcome);
    OpenedTextCarriesTheFields(f, date, outcome);
    if outcome == Sent {
      DatedTextExtendsText(f, date);
      ContainsAt(t, InquiryText(f) + "%0A%0A", SentLine(date), "");
      ContainsPrepend(ChatBase, t, SentLine(date));
    }
    ContainsPrepend(ChatBase, t, f.name);
    ContainsPrepend(ChatBase, t, f.phone);
    ContainsPrepend(ChatBase, t, EmailShown(f.email));
    ContainsPrepend(ChatBase, t, f.service);
    ContainsPrepend(ChatBase, t, f.message);
  }

  lemma ChatBaseIsUnbroken()
    ensures Unbroken(ChatBase)
  {
  }

  /** The chat app reads the value of a chat link from its text, less the
      blanks trimmed from the end of the link, the tabs and newlines, and
      everything from the first `&` or `#` on. */
  lemma ReceivedOfChatLink(text: string)
    ensures ReceivedText(ChatLink(text)) ==
      Some(Unescape(ValuePart(StripTabsAndNewlines(TrimEnd(text)))))
  {
    var link := ChatLink(text);
    assert TrimStart(link) == link;
    TrimEndAppend(ChatBase, text);
    StripAppend(ChatBase, TrimEnd(text));
    ChatBaseIsUnbroken();
    StripUnbroken(ChatBase);
    var url := ChatBase + StripTabsAndNewlines(TrimEnd(text));
    assert url[..|ChatBase|] == ChatBase && url[|ChatBase|..] == StripTabsAndNewlines(TrimEnd(text));
  }

  /** Every field is free of reserved characters. */
  predicate PlainForm(f: ContactForm)
  {
    Plain(f.name) && Plain(f.phone) && Plain(f.email) && Plain(f.service) && Plain(f.message)
  }

  lemma TitleIsPlain()
    ensures Plain(Title)
  {
  }

  lemma FieldLabelsArePlain()
    ensures Plain(NameLabel) && Plain(PhoneLabel) && Plain(EmailLabel)
    ensures Plain(ServiceLabel) && Plain(MessageLabel)
  {
  }

  lemma FixedTextIsPlain()
    ensures Plain(SentOnLabel) && Plain("_") && Plain("Not provided")
  {
  }

  lemma EscapeNewlines()
    ensures Escape("\n", ReservedOnly) == "%0A"
    ensures Escape("\n\n", ReservedOnly) == "%0A%0A"
    ensures Escape("\n" + "\n", ReservedOnly) == "%0A" + "%0A"
  {
    assert Escape("\n", ReservedOnly) == EscapeChar('\n', ReservedOnly) + Escape([], ReservedOnly);
    EscapeAppend("\n", "\n", ReservedOnly);
    assert "\n\n" == "\n" + "\n";
  }

  /** The email shown is free of reserved characters when the email is. */
  lemma EmailShownIsPlain(email: string)
    requires Plain(email)
    ensures Plain(EmailShown(email))
  {
    FixedTextIsPlain();
  }

  lemma EscapeTitleLine()
    ensures Escape(TitleLine("\n"), ReservedOnly) == TitleLine("%0A")
  {
    TitleIsPlain();
    EscapePlain(Title);
    EscapeNewlines();
    EscapeAppend(Title, "\n", ReservedOnly);
    EscapeAppend(Title + "\n", "\n", ReservedOnly);
  }

  lemma EscapeFieldLine(heading: string, value: string, br: string, encodedBr: string)
    requires Plain(heading) && Plain(value) && Escape(br, ReservedOnly) == encodedBr
    ensures Escape(FieldLine(heading, value, br), ReservedOnly) == FieldLine(heading, value, encodedBr)
  {
    EscapePlain(heading);
    EscapePlain(value);
    EscapeAppend(heading, value, ReservedOnly);
    EscapeAppend(heading + value, br, ReservedOnly);
  }

  lemma EscapeMessageLines(message: string)
    requires Plain(message)
    ensures Escape(MessageLines(message, "\n"), ReservedOnly) == MessageLines(message, "%0A")
  {
    FieldLabelsArePlain();
    EscapePlain(MessageLabel);
    EscapePlain(message);
    EscapeNewlines();
    EscapeAppend(MessageLabel, "\n", ReservedOnly);
    EscapeAppend(MessageLabel + "\n", message, ReservedOnly);
  }

  lemma EscapeSixPieces(a: string, b: string, c: string, d: string, e: string, g: string)
    ensures Escape(a + b + c + d + e + g, ReservedOnly) ==
      Escape(a, ReservedOnly) + Escape(b, ReservedOnly) + Escape(c, ReservedOnly) +
      Escape(d, ReservedOnly) + Escape(e, ReservedOnly) + Escape(g, ReservedOnly)
  {
    EscapeAppend(a, b, ReservedOnly);
    EscapeAppend(a + b, c, ReservedOnly);
    EscapeAppend(a + b + c, d, ReservedOnly);
    EscapeAppend(a + b + c + d, e, ReservedOnly);
    EscapeAppend(a + b + c + d + e, g, ReservedOnly);
  }

  /** Line by line, the lines with real breaks encode to the lines the page
      writes with `%0A`. */
  lemma EscapeLines(f: ContactForm)
    requires PlainForm(f)
    ensures Escape(TitleLine("\n"), ReservedOnly) == TitleLine("%0A")
    ensures Escape(FieldLine(NameLabel, f.name, "\n"), ReservedOnly) == FieldLine(NameLabel, f.name, "%0A")
    ensures Escape(FieldLine(PhoneLabel, f.phone, "\n"), ReservedOnly) == FieldLine(PhoneLabel, f.phone, "%0A")
    ensures Escape(FieldLine(EmailLabel, EmailShown(f.email), "\n"), ReservedOnly) ==
      FieldLine(EmailLabel, EmailShown(f.email), "%0A")
    ensures Escape(FieldLine(ServiceLabel, f.service, "\n" + "\n"), ReservedOnly) ==
      FieldLine(ServiceLabel, f.service, "%0A" + "%0A")
    ensures Escape(MessageLines(f.message, "\n"), ReservedOnly) == MessageLines(f.message, "%0A")
  {
    FieldLabelsArePlain();
    EscapeNewlines();
    EmailShownIsPlain(f.email);
    EscapeTitleLine();
    EscapeFieldLine(NameLabel, f.name, "\n", "%0A");
    EscapeFieldLine(PhoneLabel, f.phone, "\n", "%0A");
    EscapeFieldLine(EmailLabel, EmailShown(f.email), "\n", "%0A");
    EscapeFieldLine(ServiceLabel, f.service, "\n" + "\n", "%0A" + "%0A");
    EscapeMessageLines(f.message);
  }

  /** The encoding of the intended message without the date line is the
      text the page builds, as long as no field holds a reserved
      character. */
  lemma EscapedMessageIsText(f: ContactForm)
    requires PlainForm(f)
    ensures Escape(IntendedMessage(f, None), ReservedOnly) == InquiryText(f)
  {
    var t0 := TitleLine("\n");
    var n := FieldLine(NameLabel, f.name, "\n");
    var p := FieldLine(PhoneLabel, f.phone, "\n");
    var e := FieldLine(EmailLabel, EmailShown(f.email), "\n");
    var s := FieldLine(ServiceLabel, f.service, "\n" + "\n");
    var m := MessageLines(f.message, "\n");
    EscapeLines(f);
    EscapeSixPieces(t0, n, p, e, s, m);
    assert IntendedMessage(f, None) == t0 + n + p + e + s + m + "";
    assert t0 + n + p + e + s + m + "" == t0 + n + p + e + s + m;
  }

  /** The same with the date line, for a date free of reserved
      characters. */
  lemma EscapedDatedMessageIsText(f: ContactForm, date: string)
    requires PlainForm(f) && Plain(date)
    ensures Escape(IntendedMessage(f, Some(date)), ReservedOnly) == DatedInquiryText(f, date)
  {
    var body := IntendedMessage(f, None);
    var line := "\n\n" + SentLine(date);
    DatedMessageExtendsMessage(f, date);
    EscapedMessageIsText(f);
    EscapeSentLine(date);
    EscapeAppend(body, line, ReservedOnly);
    DatedTextExtendsText(f, date);
  }

  /** The intended message with a date is the one without, followed by
      the date line. */
  lemma DatedMessageExtendsMessage(f: ContactForm, date: string)
    ensures IntendedMessage(f, Some(date)) == IntendedMessage(f, None) + ("\n\n" + SentLine(date))
  {
    var body := TitleLine("\n") +
      FieldLine(NameLabel, f.name, "\n") +
      FieldLine(PhoneLabel, f.phone, "\n") +
      FieldLine(EmailLabel, EmailShown(f.email), "\n") +
      FieldLine(ServiceLabel, f.service, "\n" + "\n") +
      MessageLines(f.message, "\n");
    assert IntendedMessage(f, None) == body + "";
    assert body + "" == body;
  }

  lemma EscapeSentLine(date: string)
    requires Plain(date)
    ensures Escape("\n\n" + SentLine(date), ReservedOnly) == "%0A%0A" + SentLine(date)
  {
    FixedTextIsPlain();
    EscapePlain(SentOnLabel);
    EscapePlain("_");
    EscapeNewlines();
    EscapePlain(date);
    EscapeAppend(SentOnLabel, date, ReservedOnly);
    EscapeAppend(SentOnLabel + date, "_", ReservedOnly);
    EscapeAppend("\n\n", SentLine(date), ReservedOnly);
  }

  /** The date line the success callback adds, or none. */
  function DateLine(date: string, outcome: EmailOutcome): Option<string>
  {
    if outcome == Sent then Some(date) else None
  }

  /** The success text ends with `_`, so nothing is trimmed from it. */
  lemma DatedTextEndsClean(f: ContactForm, date: string)
    ensures DatedInquiryText(f, date) != [] && EndsClean(DatedInquiryText(f, date))
  {
    var t := DatedInquiryText(f, date);
    assert t[|t| - 1] == '_';
  }

  lemma TextEndsWithMessage(f: ContactForm)
    ensures InquiryText(f) == (Preamble(f, "%0A") + (MessageLabel + "%0A")) + f.message
  {
    assert InquiryText(f) == Preamble(f, "%0A") + MessageLines(f.message, "%0A");
  }

  /** The failure text ends with the message, so the blanks trimmed from
      the link's end are the message's trailing blanks. */
  lemma TrimmedTextTrimsMessage(f: ContactForm)
    ensures TrimEnd(InquiryText(f)) == InquiryText(f.(message := TrimEnd(f.message)))
  {
    var g := f.(message := TrimEnd(f.message));
    var pre := Preamble(f, "%0A") + (MessageLabel + "%0A");
    assert Preamble(g, "%0A") == Preamble(f, "%0A");
    TextEndsWithMessage(f);
    TextEndsWithMessage(g);
    assert pre[|pre| - 1] == 'A';
    TrimEndAppend(pre, f.message);
  }

  /** The message is the last part of the intended message without a date. */
  lemma MessageComesLast(f: ContactForm)
    ensures IntendedMessage(f, None) == IntendedMessage(f.(message := ""), None) + f.message
  {
    var pre := TitleLine("\n") +
      FieldLine(NameLabel, f.name, "\n") +
      FieldLine(PhoneLabel, f.phone, "\n") +
      FieldLine(EmailLabel, EmailShown(f.email), "\n") +
      FieldLine(ServiceLabel, f.service, "\n" + "\n") +
      MessageLabel + "\n";
    assert IntendedMessage(f, None) == pre + f.message + "";
    assert IntendedMessage(f.(message := ""), None) == pre + "" + "";
  }

  /** For fields (and a date) without reserved characters, the chat app
      receives the intended message, with the date line on success only.
      On failure the text ends with the message, so the URL parser trims
      the message's trailing blanks; the message arrives exactly when it
      does not end in one. */
  lemma PlainFormArrivesIntact(f: ContactForm, date: string, outcome: EmailOutcome)
    requires PlainForm(f) && (outcome == Sent ==> Plain(date))
    ensures outcome == Sent ==>
      ReceivedText(OpenedLink(f, date, outcome)) == Some(IntendedMessage(f, Some(date)))
    ensures outcome == Failed ==>
      ReceivedText(OpenedLink(f, date, outcome)) ==
      Some(IntendedMessage(f.(message := TrimEnd(f.message)), None))
    ensures outcome == Sent || EndsClean(f.message) ==>
      ReceivedText(OpenedLink(f, date, outcome)) == Some(IntendedMessage(f, DateLine(date, outcome)))
  {
    if outcome == Sent {
      SentTextArrives(f, date);
    } else {
      FailedTextArrives(f);
      TrimEndShortens(f.message);
    }
  }

  lemma SentTextArrives(f: ContactForm, date: string)
    requires PlainForm(f) && Plain(date)
    ensures ReceivedText(ChatLink(DatedInquiryText(f, date))) == Some(IntendedMessage(f, Some(date)))
  {
    var text := DatedInquiryText(f, date);
    ReceivedOfChatLink(text);
    EscapedDatedMessageIsText(f, date);
    DatedTextEndsClean(f, date);
    TrimEndShortens(text);
    ArrivesAsWritten(IntendedMessage(f, Some(date)));
  }

  lemma FailedTextArrives(f: ContactForm)
    requires PlainForm(f)
    ensures ReceivedText(ChatLink(InquiryText(f))) ==
      Some(IntendedMessage(f.(message := TrimEnd(f.message)), None))
  {
    var g := f.(message := TrimEnd(f.message));
    ReceivedOfChatLink(InquiryText(f));
    PlainPrefix(f.message, |TrimEnd(f.message)|);
    assert PlainForm(g);
    EscapedMessageIsText(g);
    TrimmedTextTrimsMessage(f);
    ArrivesAsWritten(IntendedMessage(g, None));
  }

  /** An encoded text the URL parser leaves alone arrives as it was meant. */
  lemma ArrivesAsWritten(m: string)
    ensures Unescape(ValuePart(StripTabsAndNewlines(Escape(m, ReservedOnly)))) == m
  {
    StripUnbroken(Escape(m, ReservedOnly));
    ValuePartUnbroken(Escape(m, ReservedOnly));
    UnescapeEscape(m, ReservedOnly);
  }

  /** As written, a message ending in a space (or another blank) loses it
      when the email call fails: the failure text ends with the raw
      message, and the URL parser trims the end of the link. */
  lemma TrailingBlankIsDropped(f: ContactForm, date: string)
    requires PlainForm(f) && !EndsClean(f.message)
    ensures ReceivedText(OpenedLink(f, date, Failed)).Some?
    ensures |ReceivedText(OpenedLink(f, date, Failed)).value| < |IntendedMessage(f, None)|
  {
    var g := f.(message := TrimEnd(f.message));
    PlainFormArrivesIntact(f, date, Failed);
    MessageComesLast(f);
    MessageComesLast(g);
    assert g.(message := "") == f.(message := "");
    TrimEndShortens(f.message);
  }

  /** As written, a name `x & y` ends the link's text value in the middle
      of the name: the chat app receives the heading and `x`, decoded, and
      nothing of the rest, whatever the other fields, the date and the
      outcome. */
  lemma AmpersandInNameCutsText(f: ContactForm, date: string, outcome: EmailOutcome, x: string, y: string)
    requires f.name == x + "&" + y && Unbroken(x)
    ensures ReceivedText(OpenedLink(f, date, outcome)) ==
      Some(Unescape(TitleLine("%0A") + NameLabel + x))
    ensures |ReceivedText(OpenedLink(f, date, outcome)).value| < |IntendedMessage(f, DateLine(date, outcome))|
    ensures ReceivedText(OpenedLink(f, date, outcome)) != Some(IntendedMessage(f, DateLine(date, outcome)))
  {
    var a := TitleLine("%0A") + FieldLine(NameLabel, f.name, "%0A");
    HeadIsUnbroken(x);
    CutInsideField(TitleLine("%0A"), NameLabel, x, y, "%0A");
    var text := OpenedText(f, date, outcome);
    NameLineStartsText(f, date, outcome);
    var rest := text[|a|..];
    assert text == a + rest;
    assert a[|a| - 1] == 'A';
    TrimEndAppend(a, rest);
    ReceivedOfChatLink(text);
    ValueReadStopsInPrefix(a, TrimEnd(rest));
    IntendedLength(f, DateLine(date, outcome));
  }

  /** Every opened text starts with the heading and the name line. */
  lemma NameLineStartsText(f: ContactForm, date: string, outcome: EmailOutcome)
    ensures TitleLine("%0A") + FieldLine(NameLabel, f.name, "%0A") <= OpenedText(f, date, outcome)
  {
    var a := TitleLine("%0A") + FieldLine(NameLabel, f.name, "%0A");
    var b := FieldLine(PhoneLabel, f.phone, "%0A") +
      FieldLine(EmailLabel, EmailShown(f.email), "%0A") +
      FieldLine(ServiceLabel, f.service, "%0A" + "%0A");
    var pre := Preamble(f, "%0A");
    assert pre == a + b;
    PrefixOfAppend(a, a, b);
    var t := InquiryText(f);
    PrefixOfAppend(a, pre, MessageLines(f.message, "%0A"));
    if outcome == Sent {
      PrefixOfAppend(a, t, "%0A%0A");
      PrefixOfAppend(a, t + "%0A%0A", SentLine(date));
    }
  }

  lemma PrefixOfAppend(a: string, s: string, tail: string)
    requires a <= s
    ensures a <= s + tail
  {
    assert (s + tail)[..|a|] == s[..|a|];
  }

  /** The intended message is longer than its heading, the name line and
      the phone label together. */
  lemma IntendedLength(f: ContactForm, date: Option<string>)
    ensures |IntendedMessage(f, date)| >= |Title| + 2 + |NameLabel| + |f.name| + 1 + |PhoneLabel|
  {
  }

  /** The value read from the heading and a field holding `&` stops at that
      `&`, whatever follows it. */
  lemma CutInsideField(pre: string, heading: string, x: string, y: string, br: string)
    requires Unbroken(pre + heading + x)
    ensures var a := pre + FieldLine(heading, x + "&" + y, br);
      '&' in a && ValuePart(StripTabsAndNewlines(a)) == pre + heading + x
  {
    var head := pre + heading + x;
    var a := pre + FieldLine(heading, x + "&" + y, br);
    assert a == head + "&" + (y + br);
    assert a[|head|] == '&';
    StripAppend(head + "&", y + br);
    StripAppend(head, "&");
    StripUnbroken(head);
    assert StripTabsAndNewlines("&") == "&";
    ValuePartCutsAtAmpersand(head, StripTabsAndNewlines(y + br));
  }

  lemma HeadIsUnbroken(x: string)
    requires Unbroken(x)
    ensures Unbroken(TitleLine("%0A") + NameLabel + x)
  {
    TitleIsPlain();
    FieldLabelsArePlain();
    PlainIsUnbroken(Title);
    PlainIsUnbroken(NameLabel);
    UnbrokenAppend(Title, "%0A");
    UnbrokenAppend(Title + "%0A", "%0A");
    UnbrokenAppend(TitleLine("%0A"), NameLabel);
    UnbrokenAppend(TitleLine("%0A") + NameLabel, x);
  }

  /** The link as it is evidently meant: the whole message percent-encoded,
      as `encodeURIComponent` would do it (escaping the reserved characters,
      the C0 controls and the space is all the reading end needs). The chat
      app then receives the intended message exactly, whatever the fields
      hold. */
  function EncodedLink(f: ContactForm, date: string, outcome: EmailOutcome): (link: string)
    ensures ReceivedText(link) == Some(IntendedMessage(f, DateLine(date, outcome)))
  {
    var m := IntendedMessage(f, DateLine(date, outcome));
    var t := Escape(m, ReservedAndBlank);
    ReceivedOfChatLink(t);
    assert EndsClean(t);
    TrimEndShortens(t);
    StripUnbroken(t);
    ValuePartUnbroken(t);
    UnescapeEscape(m, ReservedAndBlank);
    ChatLink(t)
  }

  /** For fields without reserved characters, the link the page opens now
      delivers what the encoded link delivers exactly when the success text
      is sent or the message does not end in a blank. */
  lemma EncodedLinkAgreesOnPlainFields(f: ContactForm, date: string, outcome: EmailOutcome)
    requires PlainForm(f) && (outcome == Sent ==> Plain(date))
    ensures ReceivedText(OpenedLink(f, date, outcome)) == ReceivedText(EncodedLink(f, date, outcome))
      <==> outcome == Sent || EndsClean(f.message)
  {
    PlainFormArrivesIntact(f, date, outcome);
    if outcome == Failed && !EndsClean(f.message) {
      TrailingBlankIsDropped(f, date);
    }
  }
}
