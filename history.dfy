/**
 * The conversation history: the `conversations` table, an append-only log of
 * rows (id, timestamp, role, content) whose id is an AUTOINCREMENT key and
 * whose role and content hold encoded text; and the windowed query that reads
 * the recent part of it back.
 */
module History {
  import opened Wrappers
  import opened Errors
  import opened Codec

  /** One row of the conversations table; `role` and `content` are stored encoded. */
  datatype Row = Row(id: int, timestamp: int, role: string, content: string)

  /** The decoded roles and contents of a query, as two parallel lists. */
  datatype Transcript = Transcript(roles: seq<string>, contents: seq<string>)

  /** `timestamp_n_minutes_ago(n)`, with the clock reading `now` (whole seconds) passed in. */
  function Cutoff(now: int, minutes: int): int {
    now - 60 * minutes
  }

  /** Ids strictly increase along the table, as AUTOINCREMENT hands them out. */
  ghost predicate IdsIncreasing(rows: seq<Row>) {
    forall i, j :: 0 <= i < j < |rows| ==> rows[i].id < rows[j].id
  }

  /** `SELECT ... WHERE timestamp >= cutoff`: the matching rows, in the order stored. */
  function Window(rows: seq<Row>, cutoff: int): (w: seq<Row>)
    ensures |w| <= |rows|
    ensures forall r :: r in w <==> r in rows && r.timestamp >= cutoff
  {
    if rows == [] then []
    else if rows[0].timestamp >= cutoff then [rows[0]] + Window(rows[1..], cutoff)
    else Window(rows[1..], cutoff)
  }

  /** A row is in the window exactly when it is at most `minutes` minutes old. */
  lemma WindowByAge(rows: seq<Row>, now: int, minutes: int, r: Row)
    ensures r in Window(rows, Cutoff(now, minutes)) <==> r in rows && now - r.timestamp <= 60 * minutes
  {
  }

  /** The window keeps the stored (id) order. */
  lemma {:induction false} WindowKeepsOrder(rows: seq<Row>, cutoff: int)
    requires IdsIncreasing(rows)
    ensures IdsIncreasing(Window(rows, cutoff))
  {
    if rows != [] {
      var tail := rows[1..];
      WindowKeepsOrder(tail, cutoff);
      var wt := Window(tail, cutoff);
      if rows[0].timestamp >= cutoff {
        var w := [rows[0]] + wt;
        forall i, j | 0 <= i < j < |w|
          ensures w[i].id < w[j].id
        {
          if i == 0 {
            assert w[j] in tail;
          }
        }
      }
    }
  }

  /** The first row of a non-empty list is one of its rows. */
  lemma HeadIsMember(s: seq<Row>)
    ensures s != [] ==> s[0] in s
  {
  }

  /** Two id-ordered lists holding the same rows are the same list. */
  lemma {:induction false} SortedByIdUnique(a: seq<Row>, b: seq<Row>)
    requires IdsIncreasing(a) && IdsIncreasing(b)
    requires forall r :: r in a <==> r in b
    ensures a == b
    decreases |a|
  {
    if a == [] {
      HeadIsMember(b);
    } else {
      assert a[0] in b;
      assert b != [];
      assert b[0] in a;
      assert a[0] == b[0];
      forall r
        ensures r in a[1..] <==> r in b[1..]
      {
        if r in a[1..] {
          var k :| 1 <= k < |a| && a[k] == r;
          assert r.id > a[0].id;
          assert r in b;
        }
        if r in b[1..] {
          var k :| 1 <= k < |b| && b[k] == r;
          assert r.id > b[0].id;
          assert r in a;
        }
      }
      SortedByIdUnique(a[1..], b[1..]);
      assert a == [a[0]] + a[1..] && b == [b[0]] + b[1..];
    }
  }

  /**
   * The window is the one id-ordered list of exactly the rows at or after the
   * cutoff: any list with those two properties is the window.
   */
  lemma WindowIsExact(rows: seq<Row>, cutoff: int, w: seq<Row>)
    requires IdsIncreasing(rows) && IdsIncreasing(w)
    requires forall r :: r in w <==> r in rows && r.timestamp >= cutoff
    ensures w == Window(rows, cutoff)
  {
    WindowKeepsOrder(rows, cutoff);
    SortedByIdUnique(w, Window(rows, cutoff));
  }

  /** The window of two tables laid end to end is the two windows laid end to end. */
  lemma {:induction false} WindowConcat(a: seq<Row>, b: seq<Row>, cutoff: int)
    ensures Window(a + b, cutoff) == Window(a, cutoff) + Window(b, cutoff)
  {
    if a == [] {
      assert [] + b == b;
    } else {
      assert (a + b)[1..] == a[1..] + b;
      WindowConcat(a[1..], b, cutoff);
      if a[0].timestamp >= cutoff {
        assert [a[0]] + (Window(a[1..], cutoff) + Window(b, cutoff))
            == ([a[0]] + Window(a[1..], cutoff)) + Window(b, cutoff);
      }
    }
  }

  /** The `role` column of the selected rows, still encoded. */
  function Roles(rows: seq<Row>): seq<string> {
    seq(|rows|, i requires 0 <= i < |rows| => rows[i].role)
  }

  /** The `content` column of the selected rows, still encoded. */
  function Contents(rows: seq<Row>): seq<string> {
    seq(|rows|, i requires 0 <= i < |rows| => rows[i].content)
  }

  /** Taking a column commutes with laying row lists end to end. */
  lemma FieldsConcat(a: seq<Row>, b: seq<Row>)
    ensures Roles(a + b) == Roles(a) + Roles(b)
    ensures Contents(a + b) == Contents(a) + Contents(b)
  {
  }

  /**
   * `[decode_base64(f) for f in fields]`: the decoded fields, or None if any one
   * of them fails to decode.
   */
  function DecodeAll(fields: seq<string>): Option<seq<string>> {
    if fields == [] then Some([])
    else
      match DecodeText(fields[0])
      case None => None
      case Some(x) =>
        match DecodeAll(fields[1..])
        case None => None
        case Some(xs) => Some([x] + xs)
  }

  /**
   * The list comprehension decodes field by field: it succeeds exactly when
   * every field decodes, and then its i-th entry is the i-th field decoded.
   */
  lemma {:induction false} DecodeAllPointwise(fields: seq<string>)
    ensures var r := DecodeAll(fields);
      && (r.Some? <==> forall i :: 0 <= i < |fields| ==> DecodeText(fields[i]).Some?)
      && (r.Some? ==> |r.value| == |fields|)
      && (r.Some? ==> forall i :: 0 <= i < |fields| ==> DecodeText(fields[i]) == Some(r.value[i]))
  {
    if fields != [] {
      DecodeAllPointwise(fields[1..]);
      assert forall i :: 1 <= i < |fields| ==> fields[i] == fields[1..][i - 1];
    }
  }

  /**
   * Decoding two lists of fields laid end to end: the two decodings laid end to
   * end when both succeed, and None when either fails.
   */
  lemma {:induction false} DecodeAllConcat(xs: seq<string>, ys: seq<string>)
    ensures DecodeAll(xs + ys) ==
      if DecodeAll(xs).Some? && DecodeAll(ys).Some? then Some(DecodeAll(xs).value + DecodeAll(ys).value) else None
  {
    if xs == [] {
      assert [] + ys == ys;
      if DecodeAll(ys).Some? {
        assert [] + DecodeAll(ys).value == DecodeAll(ys).value;
      }
    } else {
      assert (xs + ys)[1..] == xs[1..] + ys;
      DecodeAllConcat(xs[1..], ys);
      if DecodeText(xs[0]).Some? && DecodeAll(xs[1..]).Some? && DecodeAll(ys).Some? {
        var x, rest, tail := DecodeText(xs[0]).value, DecodeAll(xs[1..]).value, DecodeAll(ys).value;
        assert [x] + (rest + tail) == ([x] + rest) + tail;
      }
    }
  }

  /** Both columns decode exactly when every field of every row decodes. */
  lemma DecodableRows(w: seq<Row>)
    ensures (DecodeAll(Roles(w)).Some? && DecodeAll(Contents(w)).Some?) <==>
            forall row :: row in w ==> DecodeText(row.role).Some? && DecodeText(row.content).Some?
  {
    DecodeAllPointwise(Roles(w));
    DecodeAllPointwise(Contents(w));
    if DecodeAll(Roles(w)).Some? && DecodeAll(Contents(w)).Some? {
      forall row | row in w
        ensures DecodeText(row.role).Some? && DecodeText(row.content).Some?
      {
        var i :| 0 <= i < |w| && w[i] == row;
        assert Roles(w)[i] == row.role && Contents(w)[i] == row.content;
      }
    }
  }

  /**
   * `get_conversations_after_timestamp` on the table's rows: the decoded roles
   * and contents of the rows at or after the cutoff, or None when a field of one
   * of them does not decode.
   */
  function ConversationsAfter(rows: seq<Row>, cutoff: int): Option<Transcript> {
    var w := Window(rows, cutoff);
    match DecodeAll(Roles(w))
    case None => None
    case Some(roles) =>
      match DecodeAll(Contents(w))
      case None => None
      case Some(contents) => Some(Transcript(roles, contents))
  }

  /**
   * The query succeeds exactly when every field of every row in the window
   * decodes; then the two lists are as long as the window, and their i-th
   * entries are the decoded role and content of the window's i-th row.
   */
  lemma QueryDecodesWindow(rows: seq<Row>, cutoff: int)
    ensures var r := ConversationsAfter(rows, cutoff);
      && (r.Some? <==> forall row :: row in Window(rows, cutoff) ==>
                         DecodeText(row.role).Some? && DecodeText(row.content).Some?)
      && (r.Some? ==> |r.value.roles| == |r.value.contents| == |Window(rows, cutoff)|)
      && (r.Some? ==> forall i :: 0 <= i < |Window(rows, cutoff)| ==>
                        DecodeText(Window(rows, cutoff)[i].role) == Some(r.value.roles[i]) &&
                        DecodeText(Window(rows, cutoff)[i].content) == Some(r.value.contents[i]))
  {
    var w := Window(rows, cutoff);
    DecodableRows(w);
    DecodeAllPointwise(Roles(w));
    DecodeAllPointwise(Contents(w));
    assert forall i :: 0 <= i < |w| ==> Roles(w)[i] == w[i].role && Contents(w)[i] == w[i].content;
  }

  /**
   * The query over a table that grew by `more` rows: the old answer followed by
   * the answer over the new rows alone, and None when either part has a field
   * that does not decode.
   */
  lemma QueryConcat(rows: seq<Row>, more: seq<Row>, cutoff: int)
    ensures ConversationsAfter(rows + more, cutoff) ==
      match (ConversationsAfter(rows, cutoff), ConversationsAfter(more, cutoff))
      case (Some(h1), Some(h2)) => Some(Transcript(h1.roles + h2.roles, h1.contents + h2.contents))
      case _ => None
  {
    var w1, w2 := Window(rows, cutoff), Window(more, cutoff);
    WindowConcat(rows, more, cutoff);
    FieldsConcat(w1, w2);
    DecodeAllConcat(Roles(w1), Roles(w2));
    DecodeAllConcat(Contents(w1), Contents(w2));
  }

  /** The query over a single stored turn that is recent enough: that turn, decoded. */
  lemma QuerySingle(r: Row, cutoff: int, role: string, content: string)
    requires r.timestamp >= cutoff && DecodeText(r.role) == Some(role) && DecodeText(r.content) == Some(content)
    ensures ConversationsAfter([r], cutoff) == Some(Transcript([role], [content]))
  {
    assert [r][1..] == [];
    assert Window([r], cutoff) == [r];
    assert Roles([r]) == [r.role] && Contents([r]) == [r.content];
    assert [r.role][1..] == [] && [r.content][1..] == [];
    assert [role] + [] == [role] && [content] + [] == [content];
    assert DecodeAll([r.role]) == Some([role]);
    assert DecodeAll([r.content]) == Some([content]);
  }

  /**
   * A turn stored with the codec and recent enough comes back, decoded, as the
   * last entry of the next query.
   */
  lemma QueryAfterAppend(rows: seq<Row>, cutoff: int, h: Transcript, r: Row, role: string, content: string)
    requires ConversationsAfter(rows, cutoff) == Some(h)
    requires r.timestamp >= cutoff && DecodeText(r.role) == Some(role) && DecodeText(r.content) == Some(content)
    ensures ConversationsAfter(rows + [r], cutoff) == Some(Transcript(h.roles + [role], h.contents + [content]))
  {
    QueryConcat(rows, [r], cutoff);
    QuerySingle(r, cutoff, role, content);
  }

  /** Two turns appended in a row come back, decoded, in the order appended. */
  lemma QueryAfterTwoAppends(rows: seq<Row>, cutoff: int, h: Transcript, u: Row, a: Row,
                             role1: string, content1: string, role2: string, content2: string)
    requires ConversationsAfter(rows, cutoff) == Some(h)
    requires u.timestamp >= cutoff && DecodeText(u.role) == Some(role1) && DecodeText(u.content) == Some(content1)
    requires a.timestamp >= cutoff && DecodeText(a.role) == Some(role2) && DecodeText(a.content) == Some(content2)
    ensures ConversationsAfter(rows + [u, a], cutoff)
              == Some(Transcript(h.roles + [role1, role2], h.contents + [content1, content2]))
  {
    QuerySingle(u, cutoff, role1, content1);
    QuerySingle(a, cutoff, role2, content2);
    assert [u, a] == [u] + [a];
    QueryConcat([u], [a], cutoff);
    QueryConcat(rows, [u, a], cutoff);
    assert [role1] + [role2] == [role1, role2] && [content1] + [content2] == [content1, content2];
  }

  /** Every stored field decodes: true of every row this program writes. */
  ghost predicate AllDecodable(rows: seq<Row>) {
    forall r :: r in rows ==> DecodeText(r.role).Some? && DecodeText(r.content).Some?
  }

  /** A row written through the codec keeps every stored field decodable. */
  lemma StoredRowDecodable(rows: seq<Row>, id: int, now: int, role: string, content: string)
    requires AllDecodable(rows)
    ensures AllDecodable(rows + [Row(id, now, EncodeText(role), EncodeText(content))])
  {
    DecodeEncodeText(role);
    DecodeEncodeText(content);
  }

  /** A store written only through the codec never fails a query. */
  lemma QueryOfDecodable(rows: seq<Row>, cutoff: int)
    requires AllDecodable(rows)
    ensures ConversationsAfter(rows, cutoff).Some?
  {
    QueryDecodesWindow(rows, cutoff);
  }

  /** The database file: whether it holds the table, the table's rows, and the AUTOINCREMENT counter. */
  class ConversationStore {
    var tableExists: bool
    var rows: seq<Row>
    /** One more than the largest id ever handed out (SQLite's sqlite_sequence entry plus one). */
    var nextId: int

    ghost predicate Valid()
      reads this
    {
      && (!tableExists ==> rows == [] && nextId == 1)
      && 1 <= nextId
      && IdsIncreasing(rows)
      && forall i :: 0 <= i < |rows| ==> 1 <= rows[i].id < nextId
    }

    /** A database file without the conversations table. */
    constructor ()
      ensures Valid() && !tableExists && rows == []
    {
      tableExists := false;
      rows := [];
      nextId := 1;
    }

    /** A database file whose conversations table already holds `rows`. */
    constructor Existing(rows: seq<Row>, nextId: int)
      requires IdsIncreasing(rows) && 1 <= nextId
      requires forall i :: 0 <= i < |rows| ==> 1 <= rows[i].id < nextId
      ensures Valid() && tableExists && this.rows == rows && this.nextId == nextId
    {
      tableExists := true;
      this.rows := rows;
      this.nextId := nextId;
    }

    /** `set_up_database`: CREATE TABLE IF NOT EXISTS; existing rows are never touched. */
    method SetUp()
      requires Valid()
      modifies this
      ensures Valid() && tableExists
      ensures rows == old(rows) && nextId == old(nextId)
    {
      if !tableExists {
        tableExists := true;
      }
    }

    /**
     * `insert_conversation`: appends one row with the next id, the given time and
     * the encoded role and content; fails, changing nothing, without the table.
     */
    method Insert(role: string, content: string, now: int) returns (ok: bool)
      requires Valid()
      modifies this
      ensures Valid() && tableExists == old(tableExists)
      ensures ok <==> old(tableExists)
      ensures ok ==> rows == old(rows) + [Row(old(nextId), now, EncodeText(role), EncodeText(content))]
      ensures ok ==> nextId == old(nextId) + 1
      ensures ok ==> forall i :: 0 <= i < |old(rows)| ==> old(rows)[i].id < rows[|rows| - 1].id
      ensures !ok ==> rows == old(rows) && nextId == old(nextId)
    {
      if !tableExists {
        return false;
      }
      rows := rows + [Row(nextId, now, EncodeText(role), EncodeText(content))];
      nextId := nextId + 1;
      ok := true;
    }

    /**
     * `get_conversations_after_timestamp` against this file: a storage error
     * without the table, corrupt data when a matching field does not decode,
     * and otherwise the decoded fields of the window, row by row in stored order.
     */
    function GetConversationsAfter(cutoff: int): (r: Result<Transcript, Error>)
      reads this
      ensures !tableExists ==> r == Failure(Storage)
      ensures tableExists ==>
        (r.Success? <==> forall row :: row in Window(rows, cutoff) ==>
                           DecodeText(row.role).Some? && DecodeText(row.content).Some?)
      ensures tableExists && r.Failure? ==> r.error == CorruptData
      ensures r.Success? ==> |r.value.roles| == |r.value.contents| == |Window(rows, cutoff)|
      ensures r.Success? ==> forall i :: 0 <= i < |Window(rows, cutoff)| ==>
                DecodeText(Window(rows, cutoff)[i].role) == Some(r.value.roles[i]) &&
                DecodeText(Window(rows, cutoff)[i].content) == Some(r.value.contents[i])
      ensures tableExists ==> match ConversationsAfter(rows, cutoff)
                              case None => r == Failure(CorruptData)
                              case Some(h) => r == Success(h)
    {
      QueryDecodesWindow(rows, cutoff);
      if !tableExists then Failure(Storage)
      else
        match ConversationsAfter(rows, cutoff)
        case None => Failure(CorruptData)
        case Some(h) => Success(h)
    }
  }
}
