/** The message query of the list endpoint:
    `WHERE to_number IN variants ORDER BY received_at DESC LIMIT n`. */
module Query {
  import opened Records

  /** `max(1, min(int(limit), 1000))`. */
  function ClampLimit(limit: int): (r: int)
    ensures 1 <= r <= 1000
    ensures 1 <= limit <= 1000 ==> r == limit
    ensures limit < 1 ==> r == 1
    ensures limit > 1000 ==> r == 1000
  {
    var capped := if limit < 1000 then limit else 1000;
    if 1 < capped then capped else 1
  }

  /** The `WHERE to_number IN variants` filter, in table order. */
  function MatchingRows(messages: seq<Message>, variants: set<string>): (r: seq<Message>)
    ensures forall i :: 0 <= i < |r| ==> r[i].toNumber in variants
    ensures forall m :: multiset(r)[m] == if m.toNumber in variants then multiset(messages)[m] else 0
  {
    if messages == [] then []
    else
      assert messages == [messages[0]] + messages[1..];
      var rest := MatchingRows(messages[1..], variants);
      if messages[0].toNumber in variants then [messages[0]] + rest else rest
  }

  lemma MatchingRowsMembers(messages: seq<Message>, variants: set<string>, m: Message)
    ensures m in MatchingRows(messages, variants) <==> m in messages && m.toNumber in variants
  {
    assert m in MatchingRows(messages, variants) <==> multiset(MatchingRows(messages, variants))[m] > 0;
    assert m in messages <==> multiset(messages)[m] > 0;
  }

  /** Each row is at least as recent as the next one. */
  predicate NewestFirst(rows: seq<Message>) {
    forall i :: 0 < i < |rows| ==> rows[i - 1].receivedAt >= rows[i].receivedAt
  }

  lemma {:induction false} NewestFirstPairs(rows: seq<Message>, i: int, j: int)
    requires NewestFirst(rows)
    requires 0 <= i <= j < |rows|
    ensures rows[i].receivedAt >= rows[j].receivedAt
    decreases j - i
  {
    if i < j {
      NewestFirstPairs(rows, i, j - 1);
    }
  }

  /** Insert `m` before the first row that is not newer than it. */
  function InsertNewest(m: Message, rows: seq<Message>): (r: seq<Message>)
    requires NewestFirst(rows)
    ensures NewestFirst(r)
    ensures multiset(r) == multiset(rows) + multiset{m}
    ensures r[0] == m || (rows != [] && r[0] == rows[0])
  {
    if rows == [] || rows[0].receivedAt <= m.receivedAt then [m] + rows
    else
      assert rows == [rows[0]] + rows[1..];
      [rows[0]] + InsertNewest(m, rows[1..])
  }

  /** `ORDER BY received_at DESC` (ties keep table order; SQL leaves them unspecified). */
  function SortNewestFirst(rows: seq<Message>): (r: seq<Message>)
    ensures NewestFirst(r)
    ensures multiset(r) == multiset(rows)
  {
    if rows == [] then []
    else
      assert rows == [rows[0]] + rows[1..];
      InsertNewest(rows[0], SortNewestFirst(rows[1..]))
  }

  /** The rows the list endpoint renders: the `n` newest messages addressed to
      one of `variants`, newest first. */
  function SelectNewest(messages: seq<Message>, variants: set<string>, n: nat): (rows: seq<Message>)
    ensures |rows| <= n
    ensures |rows| == if n < |MatchingRows(messages, variants)| then n else |MatchingRows(messages, variants)|
    ensures NewestFirst(rows)
    ensures multiset(rows) <= multiset(MatchingRows(messages, variants))
    ensures forall i :: 0 <= i < |rows| ==> rows[i] in messages && rows[i].toNumber in variants
    ensures forall m, i :: m in messages && m.toNumber in variants && m !in rows && 0 <= i < |rows|
                           ==> m.receivedAt <= rows[i].receivedAt
  {
    var matching := MatchingRows(messages, variants);
    var sorted := SortNewestFirst(matching);
    var k := if n < |sorted| then n else |sorted|;
    SelectNewestFacts(messages, variants, matching, sorted, k);
    sorted[..k]
  }

  lemma SelectNewestFacts(messages: seq<Message>, variants: set<string>, matching: seq<Message>,
                          sorted: seq<Message>, k: nat)
    requires matching == MatchingRows(messages, variants)
    requires NewestFirst(sorted) && multiset(sorted) == multiset(matching)
    requires k <= |sorted|
    ensures |sorted| == |matching|
    ensures var rows := sorted[..k];
            && NewestFirst(rows)
            && multiset(rows) <= multiset(matching)
            && (forall i :: 0 <= i < |rows| ==> rows[i] in messages && rows[i].toNumber in variants)
            && (forall m, i :: m in messages && m.toNumber in variants && m !in rows && 0 <= i < |rows|
                               ==> m.receivedAt <= rows[i].receivedAt)
  {
    assert |sorted| == |multiset(sorted)| == |matching|;
    PrefixMultiset(sorted, k);
    forall i | 0 <= i < k
      ensures sorted[i] in messages && sorted[i].toNumber in variants
    {
      SortedRowMatches(messages, variants, sorted, i);
    }
    forall m, i | m in messages && m.toNumber in variants && m !in sorted[..k] && 0 <= i < k
      ensures m.receivedAt <= sorted[i].receivedAt
    {
      LeftOutIsOlder(messages, variants, sorted, k, m, i);
    }
  }

  lemma PrefixMultiset(rows: seq<Message>, k: nat)
    requires k <= |rows|
    ensures multiset(rows[..k]) <= multiset(rows)
  {
    assert rows == rows[..k] + rows[k..];
  }

  lemma SortedRowMatches(messages: seq<Message>, variants: set<string>, sorted: seq<Message>, i: nat)
    requires multiset(sorted) == multiset(MatchingRows(messages, variants))
    requires i < |sorted|
    ensures sorted[i] in messages && sorted[i].toNumber in variants
  {
    assert sorted[i] in multiset(sorted);
    MatchingRowsMembers(messages, variants, sorted[i]);
  }

  lemma LeftOutIsOlder(messages: seq<Message>, variants: set<string>, sorted: seq<Message>, k: nat,
                       m: Message, i: nat)
    requires NewestFirst(sorted) && multiset(sorted) == multiset(MatchingRows(messages, variants))
    requires i < k <= |sorted|
    requires m in messages && m.toNumber in variants && m !in sorted[..k]
    ensures m.receivedAt <= sorted[i].receivedAt
  {
    MatchingRowsMembers(messages, variants, m);
    assert m in multiset(sorted);
    var j :| 0 <= j < |sorted| && sorted[j] == m;
    assert k <= j;
    NewestFirstPairs(sorted, i, j);
  }
}
