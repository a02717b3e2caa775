/** Path strings and their segments.

    A path is cut at every '/' exactly as Python's `str.split("/")` does: the
    result always has at least one segment, and empty segments (from a leading,
    trailing or doubled '/') are kept, so "" gives [""] and "a//b" gives
    ["a", "", "b"]. `Join` puts the segments back together and is the inverse. */
module PathSegments {

  /** A segment never holds the separator. */
  predicate IsSegment(s: string) {
    '/' !in s
  }

  predicate AllSegments(parts: seq<string>) {
    forall k :: 0 <= k < |parts| ==> IsSegment(parts[k])
  }

  /** Python's `path.split("/")`. */
  function Split(s: string): (parts: seq<string>)
    ensures |parts| >= 1
    ensures AllSegments(parts)
  {
    if s == [] then [""]
    else if s[0] == '/' then [""] + Split(s[1..])
    else
      var rest := Split(s[1..]);
      [[s[0]] + rest[0]] + rest[1..]
  }

  /** `"/".join(parts)`: the inverse of `Split`. */
  function Join(parts: seq<string>): string
    requires |parts| >= 1
  {
    if |parts| == 1 then parts[0] else parts[0] + "/" + Join(parts[1..])
  }

  /** Joining the segments of a path gives the path back. */
  lemma {:induction false} JoinSplit(s: string)
    ensures Join(Split(s)) == s
  {
    if s == [] {
    } else if s[0] == '/' {
      JoinSplit(s[1..]);
      assert s == "/" + s[1..];
    } else {
      var rest := Split(s[1..]);
      JoinSplit(s[1..]);
      if |rest| == 1 {
        assert s == [s[0]] + rest[0];
      } else {
        assert Join(rest) == rest[0] + "/" + Join(rest[1..]);
        assert s == ([s[0]] + rest[0]) + "/" + Join(rest[1..]);
      }
    }
  }

  /** A string without '/' is a single segment. */
  lemma {:induction false} SplitSegment(s: string)
    requires IsSegment(s)
    ensures Split(s) == [s]
  {
    if s != [] {
      SplitSegment(s[1..]);
      assert [s[0]] + s[1..] == s;
    }
  }

  /** Cutting `head + "/" + tail` yields `head` followed by the segments of `tail`. */
  lemma {:induction false} SplitCons(head: string, tail: string)
    requires IsSegment(head)
    ensures Split(head + "/" + tail) == [head] + Split(tail)
  {
    if head == [] {
      assert "/" + tail == ['/'] + tail;
      assert ("/" + tail)[1..] == tail;
    } else {
      var s := head + "/" + tail;
      assert s[0] == head[0] && s[1..] == head[1..] + "/" + tail;
      SplitCons(head[1..], tail);
      assert [head[0]] + head[1..] == head;
    }
  }

  /** Cutting a joined list of segments gives the list back. */
  lemma {:induction false} SplitJoin(parts: seq<string>)
    requires |parts| >= 1 && AllSegments(parts)
    ensures Split(Join(parts)) == parts
  {
    if |parts| == 1 {
      SplitSegment(parts[0]);
    } else {
      SplitJoin(parts[1..]);
      SplitCons(parts[0], Join(parts[1..]));
      assert [parts[0]] + parts[1..] == parts;
    }
  }
}
