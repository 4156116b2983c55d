/**
 * The `#messages` pane of View.js as a sequence of entries: where a chat
 * message is inserted, which entries are evicted from the front, and how
 * a user's messages are hidden.  Entries carry their `username:timestamp`
 * id; their timestamps are read back by decoding the id.
 */
module MessagePane {
  import opened Wrappers
  import opened JsNumber
  import opened MessageId

  /** What an entry shows besides its text. */
  datatype Kind =
    | ChatEntry(displayName: string, badgesHtml: string, mention: bool, action: bool, alternating: bool)
    | SystemEntry
    | SubscriptionEntry

  /** One `.message` element: its id, its kind, the `hidden-message` class
      and the HTML of its `.message-text`.  The id attribute is written once,
      by `encodeMessageId`, and only ever read through `decodeMessageId`, so
      the entry keeps it in decoded form (`EntryId`). */
  datatype Entry = Entry(id: MessageIdData, kind: Kind, hidden: bool, html: string)

  /** The id of a new element, as every later read decodes it. */
  function EntryId(username: string, timestamp: Num): MessageIdData {
    DecodeMessageId(EncodeMessageId(username, timestamp))
  }

  function UsernameOf(e: Entry): string {
    e.id.username
  }

  function TimestampOf(e: Entry): Num {
    e.id.timestamp
  }

  /** The decoded timestamps of the entries, in pane order. */
  function Timestamps(pane: seq<Entry>): (tss: seq<Num>)
    ensures |tss| == |pane|
  {
    seq(|pane|, i requires 0 <= i < |pane| => TimestampOf(pane[i]))
  }

  /** `getUserMessageElements`: the `.message` elements without the
      `debug-message` class.  View.js never gives an element that class
      (`appendDebugMessage` appends a system message), so this is every
      entry of the pane. */
  function UserMessageElements(pane: seq<Entry>): seq<Entry> {
    pane
  }

  // ------------------------------------------------------------- timestamps

  /** `getLastMessageTimestamp`: the decoded timestamp of the last entry,
      or the current time for an empty pane. */
  function LastMessageTimestamp(pane: seq<Entry>, now: int): Num {
    if |pane| == 0 then Int(now) else TimestampOf(pane[|pane| - 1])
  }

  /** `timestamp == null || timestamp == -1`. */
  predicate IsMissing(timestamp: Option<Num>) {
    timestamp.None? || timestamp == Some(Int(-1))
  }

  /** The timestamp `appendChatMessage` files a message under. */
  function ResolveTimestamp(timestamp: Option<Num>, pane: seq<Entry>, now: int): Num {
    if IsMissing(timestamp) then
      (if |UserMessageElements(pane)| > 0 then LastMessageTimestamp(pane, now) else Int(now))
    else timestamp.value
  }

  // -------------------------------------------------------------- insertion

  /** The first index from 1 on whose timestamp is greater than `t`: where
      the scan breaks off, or the length when it does not. */
  function BreakAt(t: Num, tss: seq<Num>, from: nat): (b: nat)
    requires 1 <= from <= |tss|
    ensures from <= b <= |tss|
    ensures forall j :: from <= j < b ==> !Lt(t, tss[j])
    ensures b < |tss| ==> Lt(t, tss[b])
    decreases |tss| - from
  {
    if from == |tss| || Lt(t, tss[from]) then from else BreakAt(t, tss, from + 1)
  }

  /** The last index below `b` that is 0 or whose timestamp `t` is at
      least: the element the scan last assigned to `insertAfter`. */
  function LastTaken(t: Num, tss: seq<Num>, b: nat): (k: nat)
    requires 1 <= b <= |tss|
    ensures k < b
    ensures k == 0 || Ge(t, tss[k])
    ensures forall j :: k < j < b ==> !Ge(t, tss[j])
    decreases b
  {
    if b == 1 || Ge(t, tss[b - 1]) then b - 1 else LastTaken(t, tss, b - 1)
  }

  /** The index of the entry the new message goes after, -1 (append) for an
      empty pane.  The scan takes the first entry unconditionally, then
      every entry whose timestamp `t` is at least, until one is greater
      than `t`; comparisons with NaN are false both ways and just move on. */
  function InsertionPoint(t: Num, tss: seq<Num>): (k: int)
    ensures -1 <= k < |tss|
    ensures k == -1 <==> |tss| == 0
  {
    if |tss| == 0 then -1 else LastTaken(t, tss, BreakAt(t, tss, 1))
  }

  /** The scan of `appendChatMessage` over the user message elements. */
  method FindInsertAfter(t: Num, elems: seq<Entry>) returns (insertAfter: int)
    ensures insertAfter == InsertionPoint(t, Timestamps(elems))
  {
    ghost var tss := Timestamps(elems);
    insertAfter := -1;
    var i := 0;
    while i < |elems|
      invariant 0 <= i <= |elems|
      invariant i == 0 <==> insertAfter == -1
      invariant i > 0 ==> 0 <= insertAfter < i
      invariant i > 0 ==> insertAfter == LastTaken(t, tss, i)
      invariant i > 1 ==> BreakAt(t, tss, 1) == BreakAt(t, tss, i)
    {
      var ts := elems[i].id.timestamp;
      if insertAfter == -1 || Ge(t, ts) {
        insertAfter := i;
      } else if Lt(t, ts) {
        assert BreakAt(t, tss, 1) == i by {
          if i > 1 { assert BreakAt(t, tss, i) == i; }
        }
        return;
      }
      i := i + 1;
    }
  }

  /** `$(insertAfter).after(elem)`, or `append` when there is no such element. */
  function InsertAt(pane: seq<Entry>, k: int, e: Entry): (r: seq<Entry>)
    requires -1 <= k < |pane|
    ensures |r| == |pane| + 1
  {
    if k < 0 then pane + [e] else pane[..k + 1] + [e] + pane[k + 1..]
  }

  // --------------------------------------------------------------- eviction

  /** `slice(0, numMessages - maxMessages).remove()` when not paused and
      `numMessages > maxMessages`. */
  function Evict(pane: seq<Entry>, numMessages: int, maxMessages: Num, paused: bool): seq<Entry> {
    if !paused && Lt(maxMessages, Int(numMessages)) then
      var excess := numMessages - maxMessages.i;
      pane[(if excess < |pane| then excess else |pane|)..]
    else pane
  }

  /** The pane after `appendChatMessage` files the entry `e` under the
      timestamp `t`: the scan compares `t` itself, not the entry's decoded id,
      which differs from `t` when the username holds a colon. */
  function AfterChatMessage(pane: seq<Entry>, t: Num, e: Entry, maxMessages: Num, paused: bool): seq<Entry> {
    var inserted := InsertAt(pane, InsertionPoint(t, Timestamps(pane)), e);
    Evict(inserted, |UserMessageElements(pane)| + 1, maxMessages, paused)
  }

  // ----------------------------------------------------------------- hiding

  /** What `hideMessagesOfUser` does to one entry. */
  function HideOne(e: Entry, username: string, remove: bool): seq<Entry> {
    if UsernameOf(e) == username then (if remove then [] else [e.(hidden := true)]) else [e]
  }

  function HideUser(pane: seq<Entry>, username: string, remove: bool): seq<Entry>
    decreases |pane|
  {
    if |pane| == 0 then []
    else HideUser(pane[..|pane| - 1], username, remove) + HideOne(pane[|pane| - 1], username, remove)
  }

  /** The entries of other users, in order. */
  function Others(pane: seq<Entry>, username: string): seq<Entry>
    decreases |pane|
  {
    if |pane| == 0 then []
    else Others(pane[..|pane| - 1], username) + (if UsernameOf(pane[|pane| - 1]) != username then [pane[|pane| - 1]] else [])
  }

  // ----------------------------------------------------------------- lemmas

  /** Timestamps all numbers, ascending. */
  predicate Ascending(tss: seq<Num>) {
    && (forall i :: 0 <= i < |tss| ==> tss[i].Int?)
    && (forall i, j :: 0 <= i < j < |tss| ==> tss[i].i <= tss[j].i)
  }

  /** Without NaN, the new entry goes right after the longest run of
      entries, from the second on, that are not newer than it. */
  lemma InsertionPointOfNumbers(t: Num, tss: seq<Num>)
    requires t.Int? && forall i :: 0 <= i < |tss| ==> tss[i].Int?
    ensures var k := InsertionPoint(t, tss);
      && (forall j :: 1 <= j <= k ==> tss[j].i <= t.i)
      && (0 <= k + 1 < |tss| ==> t.i < tss[k + 1].i)
  {
  }

  /** In an ascending pane whose first entry is not newer than the message,
      the message goes right after every entry not newer than it: equal
      timestamps keep their arrival order. */
  lemma InsertionPointAfterOlder(t: Num, tss: seq<Num>)
    requires Ascending(tss) && t.Int?
    requires |tss| > 0 ==> tss[0].i <= t.i
    ensures var k := InsertionPoint(t, tss);
      forall j :: 0 <= j < |tss| ==> (tss[j].i <= t.i <==> j <= k)
  {
    if |tss| > 0 {
      var k := InsertionPoint(t, tss);
      InsertionPointOfNumbers(t, tss);
      forall j | 0 <= j < |tss|
        ensures tss[j].i <= t.i <==> j <= k
      {
        if j > k {
          assert t.i < tss[k + 1].i;
        } else if j > 0 {
          assert tss[j].i <= t.i;
        }
      }
    }
  }

  /** Inserting keeps an ascending pane ascending, whenever the message is
      not older than the first entry. */
  lemma InsertKeepsAscending(pane: seq<Entry>, e: Entry)
    requires Ascending(Timestamps(pane)) && TimestampOf(e).Int?
    requires |pane| > 0 ==> Ge(TimestampOf(e), TimestampOf(pane[0]))
    ensures Ascending(Timestamps(InsertAt(pane, InsertionPoint(TimestampOf(e), Timestamps(pane)), e)))
  {
    var t, tss := TimestampOf(e), Timestamps(pane);
    var k := InsertionPoint(t, tss);
    TimestampsInsertAt(pane, k, e);
    if k >= 0 {
      assert tss[0] == TimestampOf(pane[0]);
      InsertionPointAfterOlder(t, tss);
      AscendingInsert(tss, k, t);
    } else {
      assert tss + [t] == [t];
    }
  }

  /** The timestamps of a pane after an insertion. */
  lemma TimestampsInsertAt(pane: seq<Entry>, k: int, e: Entry)
    requires -1 <= k < |pane|
    ensures Timestamps(InsertAt(pane, k, e))
      == if k < 0 then Timestamps(pane) + [TimestampOf(e)]
         else Timestamps(pane)[..k + 1] + [TimestampOf(e)] + Timestamps(pane)[k + 1..]
  {
    if k < 0 {
      TimestampsAppend(pane, [e]);
    } else {
      TimestampsAppend(pane[..k + 1] + [e], pane[k + 1..]);
      TimestampsAppend(pane[..k + 1], [e]);
      TimestampsSlice(pane, k + 1);
    }
  }

  lemma TimestampsAppend(a: seq<Entry>, b: seq<Entry>)
    ensures Timestamps(a + b) == Timestamps(a) + Timestamps(b)
  {
    forall i | 0 <= i < |a| + |b|
      ensures Timestamps(a + b)[i] == (Timestamps(a) + Timestamps(b))[i]
    {
      if i < |a| { assert (a + b)[i] == a[i]; } else { assert (a + b)[i] == b[i - |a|]; }
    }
  }

  lemma TimestampsSlice(pane: seq<Entry>, k: nat)
    requires k <= |pane|
    ensures Timestamps(pane[..k]) == Timestamps(pane)[..k]
    ensures Timestamps(pane[k..]) == Timestamps(pane)[k..]
  {
    TimestampsTake(pane, k);
    TimestampsDrop(pane, k);
  }

  lemma TimestampsTake(pane: seq<Entry>, k: nat)
    requires k <= |pane|
    ensures Timestamps(pane[..k]) == Timestamps(pane)[..k]
  {
    forall i | 0 <= i < k
      ensures Timestamps(pane[..k])[i] == Timestamps(pane)[..k][i]
    {
      assert pane[..k][i] == pane[i];
    }
  }

  lemma TimestampsDrop(pane: seq<Entry>, k: nat)
    requires k <= |pane|
    ensures Timestamps(pane[k..]) == Timestamps(pane)[k..]
  {
    forall i | 0 <= i < |pane| - k
      ensures Timestamps(pane[k..])[i] == Timestamps(pane)[k..][i]
    {
      assert pane[k..][i] == pane[k + i];
    }
  }

  /** Placing `t` right after the entries not newer than it keeps the
      timestamps ascending. */
  lemma AscendingInsert(tss: seq<Num>, k: nat, t: Num)
    requires Ascending(tss) && t.Int? && k < |tss|
    requires forall j :: 0 <= j < |tss| ==> (tss[j].i <= t.i <==> j <= k)
    ensures Ascending(tss[..k + 1] + [t] + tss[k + 1..])
  {
    var r := tss[..k + 1] + [t] + tss[k + 1..];
    assert forall i :: 0 <= i < |r| ==> r[i] == (if i <= k then tss[i] else if i == k + 1 then t else tss[i - 1]);
  }

  /** A message older than every entry still lands after the first one. */
  lemma OlderThanAllLandsSecond(t: Num, tss: seq<Num>)
    requires |tss| > 0 && t.Int?
    requires forall i :: 0 <= i < |tss| ==> tss[i].Int? && t.i < tss[i].i
    ensures InsertionPoint(t, tss) == 0
  {
    InsertionPointOfNumbers(t, tss);
  }

  /** A message without a timestamp takes the last entry's and is appended
      after it, in an ascending pane. */
  lemma MissingTimestampAppends(timestamp: Option<Num>, pane: seq<Entry>, now: int)
    requires IsMissing(timestamp) && |pane| > 0
    requires Ascending(Timestamps(pane))
    ensures InsertionPoint(ResolveTimestamp(timestamp, pane, now), Timestamps(pane)) == |pane| - 1
  {
    var tss := Timestamps(pane);
    assert ResolveTimestamp(timestamp, pane, now) == tss[|tss| - 1];
    LastIsLatest(tss);
  }

  /** The last of ascending timestamps goes after every entry. */
  lemma LastIsLatest(tss: seq<Num>)
    requires Ascending(tss) && |tss| > 0
    ensures InsertionPoint(tss[|tss| - 1], tss) == |tss| - 1
  {
    InsertionPointAfterOlder(tss[|tss| - 1], tss);
  }

  /** An id encoded from a name without a colon reads back as that name
      and timestamp. */
  lemma EntryIdRoundTrip(username: string, t: Num)
    requires ':' !in username
    ensures EntryId(username, t) == MessageIdData(username, t)
  {
    DecodeEncode(username, t);
  }

  /** Appending an entry filed under the last entry's timestamp (or under
      the current time in an empty pane), as system messages are, keeps an
      ascending pane ascending. */
  lemma AppendLatestKeepsAscending(pane: seq<Entry>, e: Entry, now: int)
    requires Ascending(Timestamps(pane))
    requires TimestampOf(e) == LastMessageTimestamp(pane, now)
    ensures Ascending(Timestamps(pane + [e]))
  {
    LastTimestampIsLast(pane, now);
    AscendingAppend(Timestamps(pane), TimestampOf(e));
    TimestampsAppendOne(pane, e);
  }

  lemma LastTimestampIsLast(pane: seq<Entry>, now: int)
    ensures |pane| > 0 ==> LastMessageTimestamp(pane, now) == Timestamps(pane)[|pane| - 1]
  {
  }

  lemma TimestampsAppendOne(pane: seq<Entry>, e: Entry)
    ensures Timestamps(pane + [e]) == Timestamps(pane) + [TimestampOf(e)]
  {
    TimestampsAppend(pane, [e]);
    assert Timestamps([e]) == [TimestampOf(e)];
  }

  lemma AscendingAppend(tss: seq<Num>, t: Num)
    requires Ascending(tss) && t.Int?
    requires |tss| > 0 ==> tss[|tss| - 1].i <= t.i
    ensures Ascending(tss + [t])
  {
    var r := tss + [t];
    forall i, j | 0 <= i < j < |r|
      ensures r[i].i <= r[j].i
    {
      if j == |tss| && i < |tss| - 1 {
        assert tss[i].i <= tss[|tss| - 1].i;
      }
    }
  }

  /** Eviction when not paused and over the limit leaves exactly the
      newest `maxMessages` entries of a pane of `numMessages` entries;
      otherwise it removes nothing. */
  lemma EvictKeepsNewest(pane: seq<Entry>, maxMessages: Num, paused: bool)
    requires maxMessages.Int? && maxMessages.i >= 0
    ensures var r := Evict(pane, |pane|, maxMessages, paused);
      if !paused && maxMessages.i < |pane| then |r| == maxMessages.i && r == pane[|pane| - maxMessages.i..]
      else r == pane
  {
  }

  /** `hideMessagesOfUser` keeps the other users' entries unchanged and in
      order, whether it removes or hides. */
  lemma {:induction false} HideUserKeepsOthers(pane: seq<Entry>, username: string, remove: bool)
    ensures Others(HideUser(pane, username, remove), username) == Others(pane, username)
    decreases |pane|
  {
    if |pane| > 0 {
      var init, last := pane[..|pane| - 1], pane[|pane| - 1];
      var h, one := HideUser(init, username, remove), HideOne(last, username, remove);
      assert pane == init + [last];
      calc {
        Others(HideUser(pane, username, remove), username);
        Others(h + one, username);
        { OthersAppend(h, one, username); }
        Others(h, username) + Others(one, username);
        { HideUserKeepsOthers(init, username, remove); OthersHideOne(last, username, remove); }
        Others(init, username) + Others([last], username);
        { OthersAppend(init, [last], username); }
        Others(init + [last], username);
      }
    }
  }

  lemma OthersHideOne(e: Entry, username: string, remove: bool)
    ensures Others(HideOne(e, username, remove), username) == Others([e], username)
  {
    assert [e][..0] == [];
    assert [e.(hidden := true)][..0] == [];
    if UsernameOf(e) == username {
      assert Others([e], username) == [];
    }
  }

  /** Removing leaves no entry of the user. */
  lemma {:induction false} HideUserRemoves(pane: seq<Entry>, username: string)
    ensures forall e :: e in HideUser(pane, username, true) ==> UsernameOf(e) != username
    decreases |pane|
  {
    if |pane| > 0 {
      HideUserRemoves(pane[..|pane| - 1], username);
    }
  }

  /** Hiding keeps every entry in place and flags exactly the user's. */
  lemma {:induction false} HideUserFlags(pane: seq<Entry>, username: string)
    ensures |HideUser(pane, username, false)| == |pane|
    ensures forall i :: 0 <= i < |pane| ==>
      HideUser(pane, username, false)[i] == (if UsernameOf(pane[i]) == username then pane[i].(hidden := true) else pane[i])
    decreases |pane|
  {
    if |pane| > 0 {
      var init, last := pane[..|pane| - 1], pane[|pane| - 1];
      HideUserFlags(init, username);
      var h := HideUser(init, username, false);
      var one := HideOne(last, username, false);
      assert |one| == 1;
      assert HideUser(pane, username, false) == h + one;
      forall i | 0 <= i < |pane|
        ensures (h + one)[i] == (if UsernameOf(pane[i]) == username then pane[i].(hidden := true) else pane[i])
      {
        if i < |init| {
          assert pane[i] == init[i];
        }
      }
    }
  }

  lemma {:induction false} OthersAppend(a: seq<Entry>, b: seq<Entry>, username: string)
    ensures Others(a + b, username) == Others(a, username) + Others(b, username)
    decreases |b|
  {
    if |b| > 0 {
      OthersAppend(a, b[..|b| - 1], username);
      assert (a + b)[..|a + b| - 1] == a + b[..|b| - 1];
    } else {
      assert a + b == a;
    }
  }

  /** Three messages with timestamps 10, 20 and 15 under a limit of two:
      15 goes between 10 and 20, and 10 is evicted. */
  lemma OutOfOrderArrival(e1: Entry, e2: Entry, e3: Entry)
    requires TimestampOf(e1) == Int(10) && TimestampOf(e2) == Int(20) && TimestampOf(e3) == Int(15)
    ensures var p1 := AfterChatMessage([], Int(10), e1, Int(2), false);
      var p2 := AfterChatMessage(p1, Int(20), e2, Int(2), false);
      AfterChatMessage(p2, Int(15), e3, Int(2), false) == [e3, e2]
  {
    assert AfterChatMessage([], Int(10), e1, Int(2), false) == [e1];
    SecondArrival(e1, e2);
    ThirdArrival(e1, e2, e3);
  }

  lemma SecondArrival(e1: Entry, e2: Entry)
    requires TimestampOf(e1) == Int(10) && TimestampOf(e2) == Int(20)
    ensures AfterChatMessage([e1], Int(20), e2, Int(2), false) == [e1, e2]
  {
    assert Timestamps([e1]) == [Int(10)];
    assert InsertionPoint(Int(20), [Int(10)]) == 0;
  }

  lemma ThirdArrival(e1: Entry, e2: Entry, e3: Entry)
    requires TimestampOf(e1) == Int(10) && TimestampOf(e2) == Int(20) && TimestampOf(e3) == Int(15)
    ensures AfterChatMessage([e1, e2], Int(15), e3, Int(2), false) == [e3, e2]
  {
    assert Timestamps([e1, e2]) == [Int(10), Int(20)];
    assert InsertionPoint(Int(15), [Int(10), Int(20)]) == 0 by {
      assert BreakAt(Int(15), [Int(10), Int(20)], 1) == 1;
    }
    assert InsertAt([e1, e2], 0, e3) == [e1, e3, e2];
  }
}
