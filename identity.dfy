/**
 * The identity resolver of the relay server: the connect path is matched against
 * `^/ws/([^/]+)/?([^/]*)`; the first group names the room, the second the user.
 * A path that does not match lands in room "general"; an empty user group gives
 * an anonymous user named from the first four characters of a fresh id.
 */
module Identity {
  import opened Wrappers

  const Prefix: string := "/ws/"
  const DefaultRoom: string := "general"
  const AnonPrefix: string := "anon_"

  /** Room and user a connection is registered under. */
  datatype Handle = Handle(room: string, user: string)

  /** The longest prefix of `s` without a '/': what the greedy class `[^/]*` consumes. */
  function Segment(s: string): (r: string)
    ensures r <= s
    ensures '/' !in r
    ensures |r| == |s| || s[|r|] == '/'
  {
    if s == [] || s[0] == '/' then [] else [s[0]] + Segment(s[1..])
  }

  /** The two capture groups of the connect-path regex, or None when it does not match. */
  function MatchPath(path: string): (m: Option<Handle>)
    ensures m.Some? <==> |path| > |Prefix| && path[..|Prefix|] == Prefix && path[|Prefix|] != '/'
    ensures m.Some? ==> m.value.room != [] && '/' !in m.value.room && '/' !in m.value.user
    ensures m.Some? ==> Prefix + m.value.room <= path
  {
    if |path| < |Prefix| || path[..|Prefix|] != Prefix then None
    else
      var room := Segment(path[|Prefix|..]);
      if room == [] then None
      else
        var rest := path[|Prefix| + |room|..];
        var tail := if rest != [] && rest[0] == '/' then rest[1..] else rest;
        Some(Handle(room, Segment(tail)))
  }

  /** The anonymous name `anon_` followed by the first four characters of a fresh id. */
  function AnonName(freshId: string): (r: string)
    ensures AnonPrefix <= r
    ensures |r| == |AnonPrefix| + (if |freshId| < 4 then |freshId| else 4)
    ensures r[|AnonPrefix|..] <= freshId
  {
    AnonPrefix + (if |freshId| < 4 then freshId else freshId[..4])
  }

  /** Fresh ids that agree on their first four characters give the same anonymous name. */
  lemma SharedIdPrefixSameAnonName(a: string, b: string)
    requires |a| >= 4 && |b| >= 4 && a[..4] == b[..4]
    ensures AnonName(a) == AnonName(b)
  {
  }

  /**
   * Room and user for a connection whose request carried `url` (a missing url is
   * read as the empty path). The result is total: every path gives a non-empty
   * room and a non-empty user.
   */
  function Resolve(url: Option<string>, freshId: string): (h: Handle)
    ensures h.room != [] && h.user != []
    ensures MatchPath(url.GetOr("")).None? ==> h.room == DefaultRoom && AnonPrefix <= h.user
    ensures MatchPath(url.GetOr("")).Some? ==> h.room == MatchPath(url.GetOr("")).value.room
  {
    var m := MatchPath(url.GetOr(""));
    var room := if m.Some? then m.value.room else DefaultRoom;
    var user := if m.Some? && m.value.user != "" then m.value.user else AnonName(freshId);
    Handle(room, user)
  }

  /** A segment followed by nothing or by '/' is consumed whole. */
  lemma {:induction false} SegmentStopsAtSlash(seg: string, rest: string)
    requires '/' !in seg
    requires rest == [] || rest[0] == '/'
    ensures Segment(seg + rest) == seg
  {
    if seg != [] {
      assert (seg + rest)[1..] == seg[1..] + rest;
      SegmentStopsAtSlash(seg[1..], rest);
    } else {
      assert seg + rest == rest;
    }
  }

  /** After `/ws/` a '/'-free room followed by nothing or by '/' is the first group; the second is read after that '/'. */
  lemma MatchRoom(room: string, after: string)
    requires room != [] && '/' !in room
    requires after == [] || after[0] == '/'
    ensures MatchPath(Prefix + room + after) == Some(Handle(room, Segment(if after == [] then [] else after[1..])))
  {
    var path := Prefix + room + after;
    assert path[..|Prefix|] == Prefix;
    assert path[|Prefix|..] == room + after;
    SegmentStopsAtSlash(room, after);
    assert path[|Prefix| + |room|..] == after;
  }

  /** The user group read after the '/' that ends the room. */
  lemma UserAfterSlash(user: string, rest: string)
    requires '/' !in user
    requires rest == [] || rest[0] == '/'
    ensures Segment(("/" + user + rest)[1..]) == user
  {
    assert ("/" + user + rest)[1..] == user + rest;
    SegmentStopsAtSlash(user, rest);
  }

  /** `/ws/R/U` and `/ws/R/U/...` give room R and user U; whatever follows a further '/' is ignored. */
  lemma RoomAndUser(room: string, user: string, rest: string, freshId: string)
    requires room != [] && '/' !in room
    requires user != [] && '/' !in user
    requires rest == [] || rest[0] == '/'
    ensures Resolve(Some(Prefix + room + "/" + user + rest), freshId) == Handle(room, user)
  {
    var after := "/" + user + rest;
    assert Prefix + room + "/" + user + rest == Prefix + room + after;
    MatchRoom(room, after);
    UserAfterSlash(user, rest);
  }

  /** `/ws/R`, `/ws/R/` and `/ws/R//...` (an empty user group) give room R and an anonymous user. */
  lemma RoomOnly(room: string, trailing: string, freshId: string)
    requires room != [] && '/' !in room
    requires trailing == [] || (trailing[0] == '/' && Segment(trailing[1..]) == [])
    ensures Resolve(Some(Prefix + room + trailing), freshId) == Handle(room, AnonName(freshId))
  {
    MatchRoom(room, trailing);
    assert Segment([]) == [];
  }

  /** A path that does not start with `/ws/` followed by a non-'/' lands in room "general" as an anonymous user. */
  lemma Unmatched(url: Option<string>, freshId: string)
    requires var p := url.GetOr(""); !(|p| > |Prefix| && p[..|Prefix|] == Prefix && p[|Prefix|] != '/')
    ensures Resolve(url, freshId) == Handle(DefaultRoom, AnonName(freshId))
  {
  }
}
