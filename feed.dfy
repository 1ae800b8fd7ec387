/**
 * The client's message-list reducer (`onmessage`): a frame from the server becomes
 * a new message list or roster. Times are abstract integer instants; the list is
 * kept ordered by time with a stable sort, as `Array.prototype.sort` does.
 */
module Feed {
  import opened Wrappers

  /** A message as it arrives: every field may be missing. */
  datatype WireMessage = WireMessage(id: Option<string>, username: Option<string>, content: Option<string>, time: Option<int>)

  /** A message in the list: it always has a time. */
  datatype Entry = Entry(id: Option<string>, username: Option<string>, content: Option<string>, time: int)

  /** A frame from the server once parsed; fields that are not arrays are None. */
  datatype Frame =
    | Unparseable
    | HistoryFrame(messages: Option<seq<WireMessage>>)
    | MessageFrame(message: WireMessage)
    | ActiveUsersFrame(users: Option<seq<string>>)
    | OtherFrame

  /** The state the reducer owns: the message list and the roster. */
  datatype View = View(messages: seq<Entry>, activeUsers: seq<string>)

  predicate SortedByTime(s: seq<Entry>) {
    forall i, j :: 0 <= i < j < |s| ==> s[i].time <= s[j].time
  }

  /** `{ ...m, time: m.time || now }`. */
  function Normalize(w: WireMessage, now: int): (e: Entry)
    ensures e.id == w.id && e.username == w.username && e.content == w.content
    ensures w.time.Some? ==> e.time == w.time.value
    ensures w.time.None? ==> e.time == now
  {
    Entry(w.id, w.username, w.content, w.time.GetOr(now))
  }

  function NormalizeAll(ws: seq<WireMessage>, now: int): (es: seq<Entry>)
    ensures |es| == |ws|
    ensures forall i :: 0 <= i < |ws| ==> es[i] == Normalize(ws[i], now)
  {
    if ws == [] then [] else [Normalize(ws[0], now)] + NormalizeAll(ws[1..], now)
  }

  /** Insert `x` into a time-ordered list after every entry whose time is not later. */
  function Insert(x: Entry, s: seq<Entry>): (r: seq<Entry>)
    requires SortedByTime(s)
    ensures SortedByTime(r)
    ensures multiset(r) == multiset(s) + multiset{x}
    ensures |r| == |s| + 1 && (r[0] == x || (s != [] && r[0] == s[0]))
  {
    if s == [] then [x]
    else if x.time < s[0].time then [x] + s
    else
      var rest := Insert(x, s[1..]);
      assert s == [s[0]] + s[1..];
      [s[0]] + rest
  }

  /** Stable sort by time: the entries of `s`, reordered so that times never decrease. */
  function SortByTime(s: seq<Entry>): (r: seq<Entry>)
    ensures SortedByTime(r)
    ensures multiset(r) == multiset(s)
    decreases |s|
  {
    if s == [] then []
    else
      var init := s[..|s| - 1];
      assert s == init + [s[|s| - 1]];
      Insert(s[|s| - 1], SortByTime(init))
  }

  /** Some entry of the list carries `id` (`prev.some(m => m.id === id)`). */
  predicate HasId(s: seq<Entry>, id: string) {
    exists i :: 0 <= i < |s| && s[i].id == Some(id)
  }

  /**
   * The `message` branch: a message whose truthy id is already listed is ignored;
   * otherwise it joins the list, which is re-sorted by time.
   */
  function AddMessage(prev: seq<Entry>, msg: Entry): (r: seq<Entry>)
    ensures Truthy(msg.id) && HasId(prev, msg.id.value) ==> r == prev
    ensures !(Truthy(msg.id) && HasId(prev, msg.id.value)) ==>
      |r| == |prev| + 1 && msg in r && SortedByTime(r) && multiset(r) == multiset(prev) + multiset{msg}
  {
    if Truthy(msg.id) && HasId(prev, msg.id.value) then prev
    else
      var r := SortByTime(prev + [msg]);
      assert msg in multiset(prev + [msg]);
      assert |multiset(r)| == |prev + [msg]|;
      r
  }

  /** The reducer: the view after one frame, with `now` for messages that lack a time. */
  function OnFrame(v: View, f: Frame, fetchHistory: bool, now: int): (v': View)
    ensures f.Unparseable? || f.OtherFrame? ==> v' == v
    ensures f.HistoryFrame? && !fetchHistory ==> v' == v
    ensures f.HistoryFrame? && fetchHistory ==>
      v'.activeUsers == v.activeUsers && SortedByTime(v'.messages) &&
      multiset(v'.messages) == multiset(NormalizeAll(f.messages.GetOr([]), now))
    ensures f.MessageFrame? ==> v' == v.(messages := AddMessage(v.messages, Normalize(f.message, now)))
    ensures f.ActiveUsersFrame? ==> v'.messages == v.messages && v'.activeUsers == f.users.GetOr([])
  {
    match f
    case Unparseable => v
    case HistoryFrame(ms) =>
      if fetchHistory then v.(messages := SortByTime(NormalizeAll(ms.GetOr([]), now))) else v
    case MessageFrame(w) => v.(messages := AddMessage(v.messages, Normalize(w, now)))
    case ActiveUsersFrame(us) => v.(activeUsers := us.GetOr([]))
    case OtherFrame => v
  }

  /** Re-delivery is harmless: a message with an id added twice is added once. */
  lemma AddMessageIdempotent(prev: seq<Entry>, msg: Entry)
    requires Truthy(msg.id)
    ensures AddMessage(AddMessage(prev, msg), msg) == AddMessage(prev, msg)
  {
    var once := AddMessage(prev, msg);
    if !HasId(prev, msg.id.value) {
      var i :| 0 <= i < |once| && once[i] == msg;
      assert once[i].id == Some(msg.id.value);
    }
  }

  /** A history frame with a non-array `messages` field empties the list. */
  lemma HistoryWithoutArrayClears(v: View, now: int)
    ensures OnFrame(v, HistoryFrame(None), true, now).messages == []
  {
    var r := OnFrame(v, HistoryFrame(None), true, now).messages;
    assert |multiset(r)| == 0;
  }
}
