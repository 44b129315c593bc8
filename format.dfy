/**
 * Message texts of the bot: the daily horoscope message (`format_msg`), a
 * parser that reads a sign and a forecast back out of such a message, and
 * the help text `/start` replies with.
 */
module Format {
  import opened Wrappers
  import opened Signs

  /** First line of every daily message, followed by a blank line. */
  const Title := "<b>🔮 Гороскоп на сегодня</b>\n\n"
  /** Opens the bold display name that follows the title. */
  const NameOpen := "<b>"
  /** Closes the display name; the forecast text follows on the next line. */
  const NameClose := "</b>\n"

  /**
   * `format_msg(sign, text)`: the title, the sign's display name in bold on
   * a line of its own, then the forecast verbatim.
   */
  function FormatMsg(sign: string, text: string): (m: string)
    requires IsSign(sign)
    ensures |m| == |Title| + |NameOpen| + |DisplayName(sign)| + |NameClose| + |text|
    ensures m[..|Title|] == Title && m[|m| - |text|..] == text
  {
    Title + NameOpen + DisplayName(sign) + NameClose + text
  }

  /** Index of the first `c` in `s`, or `|s|` when there is none. */
  function IndexOfChar(s: string, c: char): (k: nat)
    ensures k <= |s| && c !in s[..k]
    ensures k < |s| <==> c in s
    ensures k < |s| ==> s[k] == c
  {
    if s == [] then 0
    else if s[0] == c then 0
    else
      var k := 1 + IndexOfChar(s[1..], c);
      assert s[..k] == [s[0]] + s[1..][..k - 1];
      k
  }

  /**
   * Reads a daily message back: the sign whose display name it carries and
   * the forecast text, or None when `m` is not a daily message.
   */
  function ParseMsg(m: string): (r: Option<(string, string)>)
  {
    var open := Title + NameOpen;
    if |m| < |open| || m[..|open|] != open then None
    else ParseBody(m[|open|..])
  }

  /** Reads the part of a daily message after its opening: the display name up to its closing tag, then the forecast. */
  function ParseBody(rest: string): (r: Option<(string, string)>)
  {
    var k := IndexOfChar(rest, '<');
    if |rest| - k < |NameClose| || rest[k..k + |NameClose|] != NameClose then None
    else
      match CodeNamed(Catalogue, rest[..k])
      case None => None
      case Some(code) => Some((code, rest[k + |NameClose|..]))
  }

  /** The part of a message after the title, split back into name, closing tag and forecast. */
  lemma SplitNameAndText(name: string, text: string)
    requires '<' !in name
    ensures var rest := name + NameClose + text;
      && IndexOfChar(rest, '<') == |name|
      && rest[..|name|] == name
      && rest[|name|..|name| + |NameClose|] == NameClose
      && rest[|name| + |NameClose|..] == text
  {
    var rest := name + NameClose + text;
    assert rest[|name|] == '<';
    assert rest[..|name|] == name;
  }

  /**
   * Regrouping a message: its opening, then name, closing tag and forecast.
   * Stated as a lemma, although Dafny proves it unaided, so that proofs over
   * the literal message constants use it only where it is called.
   */
  lemma Regroup(a: string, b: string, c: string, d: string, e: string)
    ensures a + b + c + d + e == (a + b) + (c + d + e)
  {
  }

  /**
   * A string split after a prefix gives back the prefix and the rest.
   * Stated as a lemma, although Dafny proves it unaided, so that proofs over
   * the literal message constants use it only where it is called.
   */
  lemma SplitAfter(open: string, rest: string)
    ensures |open| <= |open + rest|
    ensures (open + rest)[..|open|] == open && (open + rest)[|open|..] == rest
  {
  }

  /** Parsing a formatted message gives back the sign and the forecast it was built from. */
  lemma ParseFormatMsg(sign: string, text: string)
    requires IsSign(sign)
    ensures ParseMsg(FormatMsg(sign, text)) == Some((sign, text))
  {
    var name := DisplayName(sign);
    CatalogueCharacters();
    CodeNamedDisplayName(sign);
    SplitNameAndText(name, text);
    Regroup(Title, NameOpen, name, NameClose, text);
    SplitAfter(Title + NameOpen, name + NameClose + text);
  }

  /** Every message the parser accepts is the formatted message of what it returns. */
  lemma ParsedMsgIsFormatted(m: string)
    requires ParseMsg(m).Some?
    ensures IsSign(ParseMsg(m).value.0)
    ensures FormatMsg(ParseMsg(m).value.0, ParseMsg(m).value.1) == m
  {
    var open := Title + NameOpen;
    var code, text := ParseMsg(m).value.0, ParseMsg(m).value.1;
    ParsedBodyIsFormatted(m[|open|..]);
    Rejoin(m, |open|);
    Regroup(Title, NameOpen, DisplayName(code), NameClose, text);
  }

  /** Every body the parser accepts is a display name, the closing tag and the forecast it returns. */
  lemma ParsedBodyIsFormatted(rest: string)
    requires ParseBody(rest).Some?
    ensures IsSign(ParseBody(rest).value.0)
    ensures rest == DisplayName(ParseBody(rest).value.0) + NameClose + ParseBody(rest).value.1
  {
    var k := IndexOfChar(rest, '<');
    NamedCodeIsSign(ParseBody(rest).value.0, rest[..k]);
    Reassemble(rest, k, NameClose);
  }

  /**
   * A string is its first `n` characters followed by the rest.
   * Stated as a lemma, although Dafny proves it unaided, so that proofs over
   * the literal message constants use it only where it is called.
   */
  lemma Rejoin(m: string, n: nat)
    requires n <= |m|
    ensures m == m[..n] + m[n..]
  {
  }

  /**
   * A string holding `close` at offset `k` is the `k` characters before it, `close`, and the rest.
   * Stated as a lemma, although Dafny proves it unaided, so that proofs over
   * the literal message constants use it only where it is called.
   */
  lemma Reassemble(rest: string, k: nat, close: string)
    requires k + |close| <= |rest| && rest[k..k + |close|] == close
    ensures rest == rest[..k] + close + rest[k + |close|..]
  {
  }

  /**
   * Different (sign, forecast) pairs never give the same message: a message
   * tells its reader which sign it is for and what the forecast was.
   */
  lemma FormatMsgInjective(s1: string, t1: string, s2: string, t2: string)
    requires IsSign(s1) && IsSign(s2)
    requires FormatMsg(s1, t1) == FormatMsg(s2, t2)
    ensures s1 == s2 && t1 == t2
  {
    ParseFormatMsg(s1, t1);
    ParseFormatMsg(s2, t2);
  }

  /** First part of the `/start` reply. */
  const HelpHeader := "Выбери знак:\n\n"

  /** The help line for one table entry: the command, a dash, the display name. */
  function HelpLine(entry: (string, string)): (line: string)
    ensures |line| == |entry.0| + |entry.1| + 5
    ensures line[0] == '/' && line[1..1 + |entry.0|] == entry.0 && line[|line| - 1] == '\n'
  {
    "/" + entry.0 + " — " + entry.1 + "\n"
  }

  /** The help lines of `entries`, one per entry, in order. */
  function HelpLines(entries: seq<(string, string)>): string {
    if entries == [] then ""
    else HelpLines(entries[..|entries| - 1]) + HelpLine(entries[|entries| - 1])
  }

  /** The full `/start` reply. */
  function HelpText(): (h: string)
    ensures |HelpHeader| <= |h| && h[..|HelpHeader|] == HelpHeader
  {
    HelpHeader + HelpLines(Catalogue)
  }

  /** The help lines of two consecutive runs of entries are those of each run, joined. */
  lemma {:induction false} HelpLinesAppend(a: seq<(string, string)>, b: seq<(string, string)>)
    ensures HelpLines(a + b) == HelpLines(a) + HelpLines(b)
  {
    if b != [] {
      var n := |b| - 1;
      assert (a + b)[..|a + b| - 1] == a + b[..n];
      HelpLinesAppend(a, b[..n]);
    } else {
      assert a + b == a;
    }
  }

  /** Where the help line of entry `i` starts within the help lines. */
  function LineOffset(entries: seq<(string, string)>, i: nat): nat
    requires i <= |entries|
  {
    |HelpLines(entries[..i])|
  }

  /**
   * The help lines hold every entry's own line, at its offset, and the lines
   * come in table order without overlapping.
   */
  lemma HelpLinesListEntries(entries: seq<(string, string)>, i: nat)
    requires i < |entries|
    ensures LineOffset(entries, i) + |HelpLine(entries[i])| == LineOffset(entries, i + 1) <= |HelpLines(entries)|
    ensures HelpLines(entries)[LineOffset(entries, i)..LineOffset(entries, i + 1)] == HelpLine(entries[i])
  {
    assert entries == entries[..i + 1] + entries[i + 1..];
    HelpLinesAppend(entries[..i + 1], entries[i + 1..]);
    assert entries[..i + 1][..i] == entries[..i];
  }

  /**
   * A slice of the part after a prefix is the shifted slice of the whole.
   * Stated as a lemma, although Dafny proves it unaided, so that proofs over
   * the literal message constants use it only where it is called.
   */
  lemma SliceAfterPrefix(h: string, t: string, lo: nat, hi: nat)
    requires lo <= hi <= |t|
    ensures (h + t)[|h| + lo..|h| + hi] == t[lo..hi]
  {
  }

  /**
   * The `/start` reply is the header followed by one line per sign, in table
   * order: the line of the i-th sign ends where that of the (i+1)-th begins.
   */
  lemma HelpTextListsEverySign(i: nat)
    requires i < |Catalogue|
    ensures var lo, hi := |HelpHeader| + LineOffset(Catalogue, i), |HelpHeader| + LineOffset(Catalogue, i + 1);
      lo <= hi <= |HelpText()| && HelpText()[lo..hi] == "/" + Catalogue[i].0 + " — " + DisplayName(Catalogue[i].0) + "\n"
  {
    ListingShowsEntry(Catalogue, i);
    TableMatchesCatalogue();
  }

  /** A listing of any table holds each entry's help line, at its offset past the header. */
  lemma ListingShowsEntry(entries: seq<(string, string)>, i: nat)
    requires i < |entries|
    ensures var lo, hi := |HelpHeader| + LineOffset(entries, i), |HelpHeader| + LineOffset(entries, i + 1);
      lo <= hi <= |HelpHeader + HelpLines(entries)| && (HelpHeader + HelpLines(entries))[lo..hi] == HelpLine(entries[i])
  {
    HelpLinesListEntries(entries, i);
    SliceAfterPrefix(HelpHeader, HelpLines(entries), LineOffset(entries, i), LineOffset(entries, i + 1));
  }

  /** The `start` handler: builds the reply line by line over the table. */
  method StartText() returns (msg: string)
    ensures msg == HelpText()
  {
    msg := Listing(Catalogue);
  }

  /** The loop of the `start` handler over any table's entries, in order. */
  method Listing(entries: seq<(string, string)>) returns (msg: string)
    ensures msg == HelpHeader + HelpLines(entries)
  {
    msg := HelpHeader;
    var i := 0;
    while i < |entries|
      invariant 0 <= i <= |entries|
      invariant msg == HelpHeader + HelpLines(entries[..i])
    {
      var (code, name) := entries[i];
      msg := msg + "/" + code + " — " + name + "\n";
      assert entries[..i + 1][..i] == entries[..i];
      i := i + 1;
    }
    assert entries[..i] == entries;
  }
}
