/**
 * Registration: turning a command's text into a sign code and recording the
 * sign under the chat's id (`subscribe` in bot.py), and the `users` table it
 * writes to, keyed by chat id.
 */
module Registration {
  import opened Wrappers
  import opened Signs

  /**
   * `text.replace("/", "")`: the message text with every '/' deleted,
   * wherever it stands, and everything else kept in order.
   */
  function DeriveSign(text: string): (r: string)
    ensures '/' !in r && |r| <= |text|
  {
    if text == [] then []
    else (if text[0] == '/' then [] else [text[0]]) + DeriveSign(text[1..])
  }

  /** Deleting the slashes of two consecutive pieces deletes them piece by piece. */
  lemma {:induction false} DeriveSignAppend(a: string, b: string)
    ensures DeriveSign(a + b) == DeriveSign(a) + DeriveSign(b)
  {
    if a != [] {
      assert (a + b)[1..] == a[1..] + b;
      DeriveSignAppend(a[1..], b);
    } else {
      assert a + b == b;
    }
  }

  /** A text without '/' is its own sign code. */
  lemma {:induction false} DeriveSignKeepsPlainText(text: string)
    requires '/' !in text
    ensures DeriveSign(text) == text
  {
    if text != [] {
      DeriveSignKeepsPlainText(text[1..]);
    }
  }

  /** A '/' anywhere in the text, not only in front, is dropped. */
  lemma SlashAnywhereIsDropped(before: string, after: string)
    ensures DeriveSign(before + "/" + after) == DeriveSign(before + after)
  {
    DeriveSignAppend(before + "/", after);
    DeriveSignAppend(before, "/");
    DeriveSignAppend(before, after);
  }

  /** The command `/<code>` of every sign derives that sign's code. */
  lemma CommandDerivesSign(code: string)
    requires IsSign(code)
    ensures DeriveSign("/" + code) == code
  {
    var i :| 0 <= i < |Catalogue| && Catalogue[i].0 == code;
    CatalogueCharacters();
    DeriveSignAppend("/", code);
    DeriveSignKeepsPlainText(code);
  }

  /** Every chat's recorded sign is a sign of the table. */
  ghost predicate AllSigns(users: map<int, string>) {
    forall chatId :: chatId in users ==> IsSign(users[chatId])
  }

  /**
   * One `subscribe` on the table, as a value: a valid sign replaces the chat's
   * row (or adds one); any other text leaves the table as it was.
   */
  function Register(users: map<int, string>, chatId: int, text: string): (r: map<int, string>)
    ensures IsSign(DeriveSign(text)) ==> chatId in r && r[chatId] == DeriveSign(text)
    ensures IsSign(DeriveSign(text)) ==> r.Keys == users.Keys + {chatId}
    ensures !IsSign(DeriveSign(text)) ==> r == users
    ensures forall c :: c in users && c != chatId ==> c in r && r[c] == users[c]
    ensures AllSigns(users) ==> AllSigns(r)
  {
    var sign := DeriveSign(text);
    if sign !in Table() then users
    else users[chatId := sign]
  }

  /** A sequence of `subscribe` commands, (chat id, text), applied in order. */
  function RegisterAll(users: map<int, string>, commands: seq<(int, string)>): map<int, string> {
    if commands == [] then users
    else
      var last := commands[|commands| - 1];
      Register(RegisterAll(users, commands[..|commands| - 1]), last.0, last.1)
  }

  /** The sign of the last accepted command of `chatId`, if any. */
  function LastSign(commands: seq<(int, string)>, chatId: int): Option<string> {
    if commands == [] then None
    else
      var last := commands[|commands| - 1];
      if last.0 == chatId && IsSign(DeriveSign(last.1)) then Some(DeriveSign(last.1))
      else LastSign(commands[..|commands| - 1], chatId)
  }

  /**
   * After any sequence of commands a chat has one sign: that of its last
   * accepted command, or, if none was accepted, whatever it had before.
   */
  lemma {:induction false} LastRegistrationWins(users: map<int, string>, commands: seq<(int, string)>, chatId: int)
    ensures var r := RegisterAll(users, commands);
      match LastSign(commands, chatId)
      case Some(sign) => chatId in r && r[chatId] == sign
      case None => (chatId in r <==> chatId in users) && (chatId in users ==> r[chatId] == users[chatId])
  {
    if commands != [] {
      LastRegistrationWins(users, commands[..|commands| - 1], chatId);
    }
  }

  /** Commands keep the table's invariant: every recorded sign is valid. */
  lemma {:induction false} RegisterAllKeepsSigns(users: map<int, string>, commands: seq<(int, string)>)
    requires AllSigns(users)
    ensures AllSigns(RegisterAll(users, commands))
  {
    if commands != [] {
      RegisterAllKeepsSigns(users, commands[..|commands| - 1]);
    }
  }

  /** `rows` lists the table: one row per chat, with its sign, no chat twice. */
  ghost predicate IsSnapshotOf(rows: seq<(int, string)>, users: map<int, string>) {
    && (forall i :: 0 <= i < |rows| ==> rows[i].0 in users && users[rows[i].0] == rows[i].1)
    && (forall chatId :: chatId in users ==> exists i :: 0 <= i < |rows| && rows[i].0 == chatId)
    && (forall i, j :: 0 <= i < j < |rows| ==> rows[i].0 != rows[j].0)
  }

  /** The ids held by a column of chat ids. */
  function Ids(column: seq<int>): set<int> {
    set i | 0 <= i < |column| :: column[i]
  }

  ghost predicate Ascending(column: seq<int>) {
    forall i, j :: 0 <= i < j < |column| ==> column[i] < column[j]
  }

  lemma IdsSnoc(column: seq<int>, chatId: int)
    ensures Ids(column + [chatId]) == Ids(column) + {chatId}
  {
    var longer := column + [chatId];
    forall c | c in Ids(column) ensures c in Ids(longer) {
      var i :| 0 <= i < |column| && column[i] == c;
      assert longer[i] == c;
    }
    assert longer[|column|] == chatId;
  }

  lemma IdsCons(chatId: int, column: seq<int>)
    ensures Ids([chatId] + column) == {chatId} + Ids(column)
  {
    var longer := [chatId] + column;
    forall c | c in Ids(column) ensures c in Ids(longer) {
      var i :| 0 <= i < |column| && column[i] == c;
      assert longer[i + 1] == c;
    }
    forall c | c in Ids(longer) ensures c in {chatId} + Ids(column) {
      var i :| 0 <= i < |longer| && longer[i] == c;
      if 0 < i {
        assert column[i - 1] == c;
      }
    }
    assert longer[0] == chatId;
  }

  /**
   * Where a new rowid goes: the column with `chatId` placed before the first
   * larger id, so that it stays ascending.
   */
  function InsertAscending(column: seq<int>, chatId: int): (r: seq<int>)
    requires Ascending(column)
    requires chatId !in Ids(column)
    ensures Ascending(r) && Ids(r) == Ids(column) + {chatId}
    ensures |r| == |column| + 1
    ensures forall i :: 0 <= i < |r| ==> r[i] == chatId || r[i] in Ids(column)
  {
    if column == [] then
      IdsCons(chatId, []);
      [chatId]
    else if chatId < column[0] then
      IdsCons(chatId, column);
      ConsAscending(chatId, column);
      [chatId] + column
    else
      assert column == [column[0]] + column[1..];
      IdsCons(column[0], column[1..]);
      var tail := InsertAscending(column[1..], chatId);
      IdsCons(column[0], tail);
      AboveHead(column);
      ConsAscending(column[0], tail);
      [column[0]] + tail
  }

  /** An id below every id of an ascending column can go in front of it. */
  lemma ConsAscending(x: int, column: seq<int>)
    requires Ascending(column)
    requires column != [] ==> x < column[0]
    ensures Ascending([x] + column)
  {
    var longer := [x] + column;
    forall i, j | 0 <= i < j < |longer| ensures longer[i] < longer[j] {
      assert longer[j] == column[j - 1];
      if 0 < i {
        assert longer[i] == column[i - 1];
      }
    }
  }

  /** The head of an ascending column is below every id after it. */
  lemma AboveHead(column: seq<int>)
    requires Ascending(column) && column != []
    ensures Ascending(column[1..])
    ensures forall c :: c in Ids(column[1..]) ==> column[0] < c
  {
    forall c | c in Ids(column[1..]) ensures column[0] < c {
      var k :| 0 <= k < |column[1..]| && column[1..][k] == c;
      assert column[k + 1] == c;
    }
  }

  /**
   * The `users` table. `chat_id` is its `INTEGER PRIMARY KEY`, so it is the
   * rowid: the table holds at most one row per chat, and a full scan reads
   * the rows in ascending chat id order.
   */
  class SubscriptionStore {
    /** chat_id to zodiac. */
    var users: map<int, string>
    /** The chat ids in the order the rows are stored. */
    var order: seq<int>

    /**
     * Only `subscribe` writes the table, so every row holds a valid sign; the
     * stored order lists every chat once, ascending.
     */
    ghost predicate Valid()
      reads this
    {
      && AllSigns(users)
      && Ascending(order)
      && Ids(order) == users.Keys
    }

    /** Opens the table with the rows an earlier run left in it, in stored order. */
    constructor (persisted: seq<(int, string)>)
      requires forall i, j :: 0 <= i < j < |persisted| ==> persisted[i].0 < persisted[j].0
      requires forall i :: 0 <= i < |persisted| ==> IsSign(persisted[i].1)
      ensures Valid()
      ensures IsSnapshotOf(persisted, users)
    {
      var m: map<int, string> := map[];
      var column: seq<int> := [];
      var i := 0;
      while i < |persisted|
        invariant 0 <= i <= |persisted|
        invariant |column| == i
        invariant forall j :: 0 <= j < i ==> column[j] == persisted[j].0
        invariant Ids(column) == m.Keys
        invariant forall j :: 0 <= j < i ==> persisted[j].0 in m && m[persisted[j].0] == persisted[j].1
        invariant AllSigns(m)
      {
        IdsSnoc(column, persisted[i].0);
        m := m[persisted[i].0 := persisted[i].1];
        column := column + [persisted[i].0];
        i := i + 1;
      }
      forall chatId | chatId in m
        ensures exists j :: 0 <= j < |persisted| && persisted[j].0 == chatId
      {
        var j :| 0 <= j < |column| && column[j] == chatId;
        assert persisted[j].0 == chatId;
      }
      users, order := m, column;
    }

    /**
     * `subscribe`: derives the sign from the command text; an unknown sign is
     * ignored, a known one is written with `REPLACE INTO` and confirmed.
     */
    method Subscribe(chatId: int, text: string) returns (reply: Option<string>)
      requires Valid()
      modifies this
      ensures Valid()
      ensures users == Register(old(users), chatId, text)
      ensures var sign := DeriveSign(text);
        if IsSign(sign) then reply == Some("✅ Подписка оформлена: " + DisplayName(sign)) else reply == None
    {
      var sign := DeriveSign(text);
      if sign !in Table() {
        return None;
      }
      if chatId !in users {
        order := InsertAscending(order, chatId);
      }
      users := users[chatId := sign];
      reply := Some("✅ Подписка оформлена: " + DisplayName(sign));
    }

    /**
     * `SELECT chat_id, zodiac FROM users`: the rows in stored order. The
     * result lists the table, every chat once, each with a valid sign.
     */
    method ListAll() returns (rows: seq<(int, string)>)
      requires Valid()
      ensures |rows| == |order| && forall i :: 0 <= i < |rows| ==> rows[i] == (order[i], users[order[i]])
      ensures IsSnapshotOf(rows, users)
      ensures forall i :: 0 <= i < |rows| ==> IsSign(rows[i].1)
    {
      rows := [];
      var i := 0;
      assert forall j :: 0 <= j < |order| ==> order[j] in Ids(order);
      while i < |order|
        invariant 0 <= i <= |order|
        invariant |rows| == i
        invariant forall j :: 0 <= j < i ==> rows[j] == (order[j], users[order[j]])
      {
        rows := rows + [(order[i], users[order[i]])];
        i := i + 1;
      }
      forall chatId | chatId in users
        ensures exists j :: 0 <= j < |rows| && rows[j].0 == chatId
      {
        var j :| 0 <= j < |order| && order[j] == chatId;
        assert rows[j].0 == chatId;
      }
    }
  }
}
