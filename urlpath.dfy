/**
 * What the browser does to the path of a `ws://` URL before it reaches the server's
 * `req.url`: the path state of the WHATWG URL Standard splits the path at '/' and
 * removes dot segments. A single-dot segment ("." or `%2e`, either case) is dropped,
 * a double-dot segment (two of those) drops the segment before it, and a dot segment
 * at the end leaves an empty last segment so that the path ends with '/'.
 */
module UrlPath {
  import Identity
  import opened Uri

  /** "." or its percent-encoded form `%2e`, in either case. */
  predicate DotUnit(s: string) {
    s == "." || (|s| == 3 && s[0] == '%' && s[1] == '2' && (s[2] == 'e' || s[2] == 'E'))
  }

  predicate SingleDot(seg: string) {
    DotUnit(seg)
  }

  /** Two dot units in a row: "..", ".%2e", "%2E." and so on. */
  predicate DoubleDot(seg: string) {
    || (|seg| >= 1 && DotUnit(seg[..1]) && DotUnit(seg[1..]))
    || (|seg| >= 3 && DotUnit(seg[..3]) && DotUnit(seg[3..]))
  }

  /** The '/'-separated pieces of `s`, empty pieces included. */
  function Split(s: string): (segs: seq<string>)
    ensures |segs| >= 1
    ensures forall i :: 0 <= i < |segs| ==> '/' !in segs[i]
    decreases |s|
  {
    var seg := Identity.Segment(s);
    if |seg| == |s| then [s] else [seg] + Split(s[|seg| + 1..])
  }

  /** The pieces put back together with '/' between them. */
  function Join(segs: seq<string>): (s: string)
    ensures |segs| == 1 ==> s == segs[0]
  {
    if segs == [] then []
    else if |segs| == 1 then segs[0]
    else segs[0] + "/" + Join(segs[1..])
  }

  /**
   * The path state over the segments still to read, with the path list built so far.
   * A segment followed by '/' that is a dot segment adds nothing (or, for "..", removes
   * the last entry); the last segment always leaves one entry behind.
   */
  function RemoveDots(segs: seq<string>, path: seq<string>): (r: seq<string>)
    ensures segs != [] ==> r != []
    decreases |segs|
  {
    if segs == [] then path
    else
      var seg, last := segs[0], |segs| == 1;
      var path' :=
        if DoubleDot(seg) then (if path == [] then [] else path[..|path| - 1]) + (if last then [""] else [])
        else if SingleDot(seg) then path + (if last then [""] else [])
        else path + [seg];
      RemoveDots(segs[1..], path')
  }

  /** The path the server receives for a request path `p`, which the URL always starts with '/'. */
  function Sent(p: string): (q: string)
    requires p != [] && p[0] == '/'
    ensures q != [] && q[0] == '/'
  {
    "/" + Join(RemoveDots(Split(p[1..]), []))
  }

  /** A '/'-free piece followed by '/' is split off whole. */
  lemma SplitAtSlash(seg: string, rest: string)
    requires '/' !in seg
    ensures Split(seg + "/" + rest) == [seg] + Split(rest)
  {
    var s := seg + "/" + rest;
    Identity.SegmentStopsAtSlash(seg, "/" + rest);
    assert s == seg + ("/" + rest);
    assert s[|seg| + 1..] == rest;
  }

  /** Splitting what `Join` put together gives the pieces back. */
  lemma {:induction false} SplitJoin(segs: seq<string>)
    requires |segs| >= 1
    requires forall i :: 0 <= i < |segs| ==> '/' !in segs[i]
    ensures Split(Join(segs)) == segs
  {
    if |segs| == 1 {
      Identity.SegmentStopsAtSlash(segs[0], []);
      assert segs[0] + [] == segs[0];
    } else {
      SplitAtSlash(segs[0], Join(segs[1..]));
      SplitJoin(segs[1..]);
      assert [segs[0]] + segs[1..] == segs;
    }
  }

  /** Segments none of which is a dot segment are kept as they are, in order. */
  lemma {:induction false} NoDotsKept(segs: seq<string>, path: seq<string>)
    requires forall i :: 0 <= i < |segs| ==> !SingleDot(segs[i]) && !DoubleDot(segs[i])
    ensures RemoveDots(segs, path) == path + segs
  {
    if segs != [] {
      NoDotsKept(segs[1..], path + [segs[0]]);
      assert path + [segs[0]] + segs[1..] == path + segs;
    }
  }

  /** A path without dot segments reaches the server unchanged. */
  lemma PlainPathArrives(segs: seq<string>)
    requires |segs| >= 1
    requires forall i :: 0 <= i < |segs| ==> '/' !in segs[i] && !SingleDot(segs[i]) && !DoubleDot(segs[i])
    ensures Sent("/" + Join(segs)) == "/" + Join(segs)
  {
    assert ("/" + Join(segs))[1..] == Join(segs);
    SplitJoin(segs);
    NoDotsKept(segs, []);
    assert [] + segs == segs;
  }

  /** `/ws/<name>` with a name that is no dot segment reaches the server unchanged. */
  lemma PlainNameArrives(name: string)
    requires '/' !in name && !SingleDot(name) && !DoubleDot(name)
    ensures Sent(Identity.Prefix + name) == Identity.Prefix + name
  {
    assert Join(["ws", name]) == "ws" + "/" + Join([name]);
    assert Identity.Prefix + name == "/" + Join(["ws", name]);
    PlainPathArrives(["ws", name]);
  }

  /** `/ws/<room>/<user>` with no dot segment among them reaches the server unchanged. */
  lemma PlainRoomAndNameArrive(room: string, user: string)
    requires '/' !in room && !SingleDot(room) && !DoubleDot(room)
    requires '/' !in user && !SingleDot(user) && !DoubleDot(user)
    ensures Sent(Identity.Prefix + room + "/" + user) == Identity.Prefix + room + "/" + user
  {
    assert Join([room, user]) == room + "/" + Join([user]);
    assert Join(["ws", room, user]) == "ws" + "/" + Join([room, user]);
    assert Identity.Prefix + room + "/" + user == "/" + Join(["ws", room, user]);
    PlainPathArrives(["ws", room, user]);
  }

  /** `/ws/<seg>` splits into "ws" and `seg` when `seg` has no '/'. */
  lemma SplitUnderPrefix(seg: string)
    requires '/' !in seg
    ensures Split((Identity.Prefix + seg)[1..]) == ["ws", seg]
  {
    assert (Identity.Prefix + seg)[1..] == "ws" + "/" + seg;
    SplitAtSlash("ws", seg);
    Identity.SegmentStopsAtSlash(seg, []);
    assert seg + [] == seg;
  }

  /** A final "." leaves an empty entry after "ws"; a final ".." removes "ws" and leaves one empty entry. */
  lemma RemoveTrailingDot(seg: string)
    requires seg == "." || seg == ".."
    ensures RemoveDots(["ws", seg], []) == (if seg == "." then ["ws", ""] else [""])
  {
    assert "ws"[..1] == "w" && !SingleDot("ws") && !DoubleDot("ws");
    assert ["ws", seg][1..] == [seg] && [] + ["ws"] == ["ws"];
    assert RemoveDots(["ws", seg], []) == RemoveDots([seg], ["ws"]);
    if seg == "." {
      assert !DoubleDot(seg);
      assert RemoveDots([seg], ["ws"]) == ["ws", ""];
    } else {
      assert seg[..1] == "." && seg[1..] == ".";
      assert ["ws"][..0] == [];
    }
  }

  /** `/ws/.` arrives as `/ws/`, and `/ws/..` as `/`. */
  lemma TrailingDotSegment(seg: string)
    requires seg == "." || seg == ".."
    ensures Sent(Identity.Prefix + seg) == (if seg == "." then Identity.Prefix else "/")
  {
    SplitUnderPrefix(seg);
    RemoveTrailingDot(seg);
    assert Join(["ws", ""]) == "ws" + "/" + Join([""]);
  }

  /** A dot unit decodes to a single '.', whatever follows it. */
  lemma DecodeDotUnit(a: string, b: string)
    requires DotUnit(a)
    ensures DecodeUriComponent(a + b) == "." + DecodeUriComponent(b)
  {
    var r := a + b;
    if a == "." {
      assert r[0] == '.' && r[1..] == b;
    } else {
      assert r[0] == '%' && HexValue(r[1]) * 16 + HexValue(r[2]) == 0x2E;
      assert r[..3] == a && a[3..] == [];
      assert PercentDecode(a) == [0x2E];
      assert r[3..] == b;
    }
  }

  /** Two dot units in a row decode to "..". */
  lemma DotUnitsDecode(seg: string, k: nat)
    requires k <= |seg| && DotUnit(seg[..k]) && DotUnit(seg[k..])
    ensures DecodeUriComponent(seg) == ".."
  {
    DecodeDotUnit(seg[..k], seg[k..]);
    DecodeDotUnit(seg[k..], []);
    assert seg[..k] + seg[k..] == seg && seg[k..] + [] == seg[k..];
  }

  /** Dot segments decode to "." and "..". */
  lemma DotSegmentsDecode(seg: string)
    ensures SingleDot(seg) ==> DecodeUriComponent(seg) == "."
    ensures DoubleDot(seg) ==> DecodeUriComponent(seg) == ".."
  {
    if SingleDot(seg) {
      DecodeDotUnit(seg, []);
      assert seg + [] == seg;
    }
    if |seg| >= 1 && DotUnit(seg[..1]) && DotUnit(seg[1..]) {
      DotUnitsDecode(seg, 1);
    } else if |seg| >= 3 && DotUnit(seg[..3]) && DotUnit(seg[3..]) {
      DotUnitsDecode(seg, 3);
    }
  }

  /**
   * `encodeURIComponent` leaves '.' as it is and writes '%' as `%25`, so an encoded
   * name is a dot segment exactly when the name itself is "." or "..".
   */
  lemma EncodedDotSegment(x: string)
    ensures SingleDot(EncodeUriComponent(x)) <==> x == "."
    ensures DoubleDot(EncodeUriComponent(x)) <==> x == ".."
  {
    DecodeEncode(x);
    DotSegmentsDecode(EncodeUriComponent(x));
    UnreservedUnchanged(".");
    UnreservedUnchanged("..");
  }
}
