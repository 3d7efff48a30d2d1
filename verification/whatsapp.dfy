/** The WhatsApp booking link: the pre-filled message, its defaults, and the `wa.me` URL
    that carries it encoded. */
module WhatsApp {
  import opened Wrappers
  import Decimal
  import UriComponent

  /** The restaurant's WhatsApp number, digits only. */
  const Phone := "212693254604"

  /** What the caller may pre-fill; every field is optional. */
  datatype ReservationDetails = ReservationDetails(
    guests: Option<int>,
    time: Option<string>,
    date: Option<string>,
    name: Option<string>)

  const NoDetails := ReservationDetails(None, None, None, None)

  const DefaultGuests := 2
  const DefaultTime := "7 PM"
  const DefaultDate := "tonight"

  const NamedGreeting := "Hi, my name is "
  const PlainGreeting := "Hi, "
  const Request := "I'd like to reserve a table for "
  const Closing := ". Thank you!"

  /** The opening words: the name only when it is present and not empty. */
  function Greeting(name: Option<string>): (g: string)
    ensures name.Some? && name.value != "" ==> g == NamedGreeting + name.value + ". "
    ensures !(name.Some? && name.value != "") ==> g == PlainGreeting
  {
    if name.Some? && name.value != "" then NamedGreeting + name.value + ". " else PlainGreeting
  }

  /** The message before encoding, once the defaults have been applied to absent fields
      (`details || {}`, then `guests = 2`, `time = "7 PM"`, `date = "tonight"`). */
  function PlainMessage(details: Option<ReservationDetails>): string {
    var d := details.GetOr(NoDetails);
    Head(d) + Tail(d)
  }

  /** The message up to the party size and the word "at". */
  function Head(d: ReservationDetails): string {
    Greeting(d.name) + Request + Decimal.IntString(d.guests.GetOr(DefaultGuests)) + " at "
  }

  /** The rest: the time, the date and the closing words. */
  function Tail(d: ReservationDetails): string {
    d.time.GetOr(DefaultTime) + " " + d.date.GetOr(DefaultDate) + Closing
  }

  /** `generateWhatsAppMessage`: the message, percent-encoded. */
  function GenerateMessage(details: Option<ReservationDetails>): string {
    UriComponent.Encode(PlainMessage(details))
  }

  const UrlPrefix := "https://wa.me/" + Phone + "?text="

  /** `getWhatsAppURL`. */
  function WhatsAppUrl(details: Option<ReservationDetails>): (url: string)
    ensures |url| >= |UrlPrefix| && url[..|UrlPrefix|] == UrlPrefix
  {
    UrlPrefix + GenerateMessage(details)
  }

  /** No details, an empty record, and an empty name all give the same link; a name, a
      party size, a time or a date given explicitly replaces only its own default. */
  lemma Defaults(d: ReservationDetails)
    ensures PlainMessage(None) == PlainMessage(Some(NoDetails))
    ensures PlainMessage(Some(d.(name := Some("")))) == PlainMessage(Some(d.(name := None)))
    ensures PlainMessage(Some(d.(guests := Some(DefaultGuests)))) == PlainMessage(Some(d.(guests := None)))
    ensures PlainMessage(Some(d.(time := Some(DefaultTime)))) == PlainMessage(Some(d.(time := None)))
    ensures PlainMessage(Some(d.(date := Some(DefaultDate)))) == PlainMessage(Some(d.(date := None)))
  {
  }

  /** Not a character that ends or splits a query parameter. */
  predicate QuerySafe(c: char) {
    c != '&' && c != '#' && c != '?' && c != ' ' && c != '=' && c != '+'
  }

  /** An encoded string is query-safe and decodes back to what was encoded. */
  lemma EncodedText(m: string)
    ensures forall i :: 0 <= i < |UriComponent.Encode(m)| ==> QuerySafe(UriComponent.Encode(m)[i])
    ensures UriComponent.Decode(UriComponent.Encode(m)) == Some(m)
  {
    UriComponent.EncodeAlphabet(m);
    UriComponent.DecodeEncode(m);
  }

  /** Whatever the customer typed, the part after `?text=` holds only unreserved characters
      and escapes, so the link has exactly one query parameter and no fragment, and
      decoding that parameter gives back the message as composed. */
  lemma UrlCarriesMessage(details: Option<ReservationDetails>)
    ensures var text := WhatsAppUrl(details)[|UrlPrefix|..];
            (forall i :: 0 <= i < |text| ==> QuerySafe(text[i]))
            && UriComponent.Decode(text) == Some(PlainMessage(details))
  {
    var m := PlainMessage(details);
    assert WhatsAppUrl(details)[|UrlPrefix|..] == UriComponent.Encode(m);
    EncodedText(m);
  }

  /** The party size in the message reads back as the number given. */
  lemma GuestsReadBack(details: Option<ReservationDetails>)
    ensures var d := details.GetOr(NoDetails);
            var g := Greeting(d.name) + Request;
            var n := Decimal.IntString(d.guests.GetOr(DefaultGuests));
            PlainMessage(details)[|g|..|g| + |n|] == n
            && Decimal.ParseInt(n) == Some(d.guests.GetOr(DefaultGuests))
  {
    var d := details.GetOr(NoDetails);
    var g := Greeting(d.name) + Request;
    var n := Decimal.IntString(d.guests.GetOr(DefaultGuests));
    var tail := " at " + Tail(d);
    assert PlainMessage(details) == g + n + tail;
    Infix(g, n, tail);
    Decimal.IntStringRoundTrip(d.guests.GetOr(DefaultGuests));
  }

  /** `b` sits right after `a` in `a + b + c`. */
  lemma Infix(a: string, b: string, c: string)
    ensures |a| + |b| <= |a + b + c| && (a + b + c)[|a|..|a| + |b|] == b
  {
    assert (a + b + c)[|a|..|a| + |b|] == b;
  }

  /** The message ends with the time, the date and the closing words; a time or date given
      as "" is written as "", not replaced by its default. */
  lemma MessageEndsWithTail(d: ReservationDetails)
    ensures var m := PlainMessage(Some(d));
            |Tail(d)| <= |m| && m[|m| - |Tail(d)|..] == Tail(d)
  {
    var h, t := Head(d), Tail(d);
    assert PlainMessage(Some(d)) == h + t;
    assert (h + t)[|h|..] == t;
  }

  /** The message opens with the greeting. */
  lemma MessageStartsWithGreeting(d: ReservationDetails)
    ensures var m, g := PlainMessage(Some(d)), Greeting(d.name);
            |g| <= |m| && m[..|g|] == g
  {
    var g := Greeting(d.name);
    var rest := Request + Decimal.IntString(d.guests.GetOr(DefaultGuests)) + " at " + Tail(d);
    assert PlainMessage(Some(d)) == g + rest;
    assert (g + rest)[..|g|] == g;
  }

  /** A non-empty name appears right after the named greeting. */
  lemma MessageNamesCustomer(d: ReservationDetails)
    requires d.name.Some? && d.name.value != ""
    ensures var m := PlainMessage(Some(d));
            |NamedGreeting| + |d.name.value| <= |m|
            && m[|NamedGreeting|..|NamedGreeting| + |d.name.value|] == d.name.value
  {
    var m, g := PlainMessage(Some(d)), Greeting(d.name);
    var i, j := |NamedGreeting|, |NamedGreeting| + |d.name.value|;
    MessageStartsWithGreeting(d);
    Infix(NamedGreeting, d.name.value, ". ");
    assert m[i..j] == m[..|g|][i..j];
  }

  /** An empty time is written as given: the message differs from the one with the default. */
  lemma EmptyTimeKept(d: ReservationDetails)
    requires d.time == Some("")
    ensures PlainMessage(Some(d)) != PlainMessage(Some(d.(time := None)))
  {
    var e := d.(time := None);
    assert Head(e) == Head(d);
    assert |Tail(e)| == |Tail(d)| + |DefaultTime|;
  }
}
