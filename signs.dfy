/**
 * The zodiac sign table of the bot (`SIGNS` in bot.py): twelve sign codes,
 * each with its Russian display name, in declaration order. The order is the
 * one the help text lists them in; the codes are the commands users send.
 */
module Signs {
  import opened Wrappers

  /** The sign table as the dict literal declares it: (code, display name). */
  const Catalogue: seq<(string, string)> := [
    ("aries", "Овен"),
    ("taurus", "Телец"),
    ("gemini", "Близнецы"),
    ("cancer", "Рак"),
    ("leo", "Лев"),
    ("virgo", "Дева"),
    ("libra", "Весы"),
    ("scorpio", "Скорпион"),
    ("sagittarius", "Стрелец"),
    ("capricorn", "Козерог"),
    ("aquarius", "Водолей"),
    ("pisces", "Рыбы")
  ]

  ghost predicate UniqueCodes(entries: seq<(string, string)>) {
    forall i, j :: 0 <= i < j < |entries| ==> entries[i].0 != entries[j].0
  }

  ghost predicate UniqueNames(entries: seq<(string, string)>) {
    forall i, j :: 0 <= i < j < |entries| ==> entries[i].1 != entries[j].1
  }

  /**
   * The dictionary a dict literal builds from its entries: every listed code
   * is a key, nothing else is, and a later entry for a code overrides an
   * earlier one.
   */
  function ToMap(entries: seq<(string, string)>): (m: map<string, string>)
    ensures forall code :: code in m <==> exists i :: 0 <= i < |entries| && entries[i].0 == code
  {
    if entries == [] then map[]
    else
      var last := entries[|entries| - 1];
      ToMap(entries[..|entries| - 1])[last.0 := last.1]
  }

  /** With unique codes, each entry's code looks up its own display name. */
  lemma {:induction false} ToMapAt(entries: seq<(string, string)>, i: nat)
    requires UniqueCodes(entries)
    requires i < |entries|
    ensures entries[i].0 in ToMap(entries) && ToMap(entries)[entries[i].0] == entries[i].1
  {
    var n := |entries| - 1;
    if i < n {
      assert UniqueCodes(entries[..n]) by {
        forall a, b | 0 <= a < b < n ensures entries[..n][a].0 != entries[..n][b].0 {
          assert entries[..n][a] == entries[a] && entries[..n][b] == entries[b];
        }
      }
      ToMapAt(entries[..n], i);
      assert entries[..n][i] == entries[i];
      assert entries[i].0 != entries[n].0;
    }
  }

  /** No two entries of the table share a code. */
  lemma CatalogueCodesUnique()
    ensures UniqueCodes(Catalogue)
  {
  }

  /** No two entries of the table share a display name. */
  lemma CatalogueNamesUnique()
    ensures UniqueNames(Catalogue)
  {
  }

  /** Codes hold no '/' and display names no '<'. */
  lemma CatalogueCharacters()
    ensures forall i :: 0 <= i < |Catalogue| ==> '/' !in Catalogue[i].0 && '<' !in Catalogue[i].1
  {
  }

  /** `SIGNS`: sign code to display name. */
  function Table(): (m: map<string, string>)
    ensures forall code :: code in m <==> exists i :: 0 <= i < |Catalogue| && Catalogue[i].0 == code
  {
    ToMap(Catalogue)
  }

  /** `sign in SIGNS`. */
  predicate IsSign(code: string): (b: bool)
    ensures b <==> exists i :: 0 <= i < |Catalogue| && Catalogue[i].0 == code
  {
    code in Table()
  }

  /** Every catalogue entry is in the table under its own code, with its own name. */
  lemma TableMatchesCatalogue()
    ensures forall i :: 0 <= i < |Catalogue| ==> Catalogue[i].0 in Table() && Table()[Catalogue[i].0] == Catalogue[i].1
  {
    CatalogueCodesUnique();
    forall i | 0 <= i < |Catalogue|
      ensures Catalogue[i].0 in Table() && Table()[Catalogue[i].0] == Catalogue[i].1
    {
      ToMapAt(Catalogue, i);
    }
  }

  /** `SIGNS[sign]`; the source raises KeyError on any other code. */
  function DisplayName(code: string): (name: string)
    requires IsSign(code)
    ensures exists i :: 0 <= i < |Catalogue| && Catalogue[i] == (code, name)
  {
    TableMatchesCatalogue();
    Table()[code]
  }

  /** Reverse lookup: the code of the first entry whose display name is `name`. */
  function CodeNamed(entries: seq<(string, string)>, name: string): (r: Option<string>)
    ensures r.Some? <==> exists i :: 0 <= i < |entries| && entries[i].1 == name
    ensures r.Some? ==> exists i :: 0 <= i < |entries| && entries[i] == (r.value, name)
  {
    if entries == [] then None
    else if entries[0].1 == name then Some(entries[0].0)
    else
      var r := CodeNamed(entries[1..], name);
      assert forall i :: 0 < i < |entries| ==> entries[i] == entries[1..][i - 1];
      r
  }

  /** Display names identify their sign: looking a sign's name up gives the sign back. */
  lemma CodeNamedDisplayName(code: string)
    requires IsSign(code)
    ensures CodeNamed(Catalogue, DisplayName(code)) == Some(code)
  {
    CatalogueNamesUnique();
    var i :| 0 <= i < |Catalogue| && Catalogue[i] == (code, DisplayName(code));
    CodeNamedAt(Catalogue, i);
  }

  /** In a table whose display names are unique, each entry's name looks up that entry's code. */
  lemma CodeNamedAt(entries: seq<(string, string)>, i: nat)
    requires UniqueNames(entries) && i < |entries|
    ensures CodeNamed(entries, entries[i].1) == Some(entries[i].0)
  {
    var r := CodeNamed(entries, entries[i].1);
    var j :| 0 <= j < |entries| && entries[j] == (r.value, entries[i].1);
    assert i == j;
  }

  /** A code found by its display name is a sign, and that name is its display name. */
  lemma NamedCodeIsSign(code: string, name: string)
    requires CodeNamed(Catalogue, name) == Some(code)
    ensures IsSign(code) && DisplayName(code) == name
  {
    var i :| 0 <= i < |Catalogue| && Catalogue[i] == (code, name);
    TableMatchesCatalogue();
  }
}
