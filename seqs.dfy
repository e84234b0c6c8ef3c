/**
 * Sequence and string operations that the utilities lean on, stated once:
 * Python's slicing into fixed-width pieces, `str.join`, `in` on strings,
 * `str.split(sep)` and the length of a leading run of characters.
 */
module Seqs {

  datatype Option<+T> = None | Some(value: T)

  /** A value, or the text of the exception that the Python code would raise. */
  datatype Result<+T> = Ok(value: T) | Err(message: string)

  /** All parts, one after the other. */
  function Concat<T>(parts: seq<seq<T>>): seq<T>
  {
    if |parts| == 0 then [] else parts[0] + Concat(parts[1..])
  }

  lemma {:induction false} ConcatSnoc<T>(parts: seq<seq<T>>, last: seq<T>)
    ensures Concat(parts + [last]) == Concat(parts) + last
    decreases |parts|
  {
    if |parts| == 0 {
      assert parts + [last] == [last];
    } else {
      assert (parts + [last])[1..] == parts[1..] + [last];
      ConcatSnoc(parts[1..], last);
    }
  }

  // ---------------------------------------------------------------------------
  // Fixed-width slicing: [s[i:i+width] for i in range(0, len(s), width)]
  // ---------------------------------------------------------------------------

  /** The consecutive slices s[i:i+width] for i = 0, width, 2*width, ... */
  function Slices<T>(s: seq<T>, width: nat): seq<seq<T>>
    requires width > 0
    decreases |s|
  {
    if |s| == 0 then []
    else if |s| <= width then [s]
    else [s[..width]] + Slices(s[width..], width)
  }

  /** The slices cover the input exactly, in order; each holds 1 to width
      elements and all but the last hold exactly width. */
  lemma {:induction false} SlicesPartition<T>(s: seq<T>, width: nat)
    requires width > 0
    ensures Concat(Slices(s, width)) == s
    ensures forall k :: 0 <= k < |Slices(s, width)| ==> 0 < |Slices(s, width)[k]| <= width
    ensures forall k :: 0 <= k < |Slices(s, width)| - 1 ==> |Slices(s, width)[k]| == width
    decreases |s|
  {
    if |s| > width {
      var rest := Slices(s[width..], width);
      SlicesPartition(s[width..], width);
      assert Slices(s, width) == [s[..width]] + rest;
      assert Slices(s, width)[1..] == rest;
      assert s == s[..width] + s[width..];
    }
  }

  /** The number of slices is ceil(|s| / width). */
  lemma {:induction false} SlicesCount<T>(s: seq<T>, width: nat)
    requires width > 0
    ensures |s| == 0 ==> |Slices(s, width)| == 0
    ensures |s| > 0 ==> (|Slices(s, width)| - 1) * width < |s| <= |Slices(s, width)| * width
    decreases |s|
  {
    if |s| > width {
      var n := |Slices(s[width..], width)|;
      SlicesCount(s[width..], width);
      assert |Slices(s, width)| == n + 1;
      assert (n + 1) * width == n * width + width;
      assert n * width == (n - 1) * width + width;
    }
  }

  /** Element t of slice k is element k*width + t of the input. */
  lemma {:induction false} SlicesAt<T>(s: seq<T>, width: nat, k: nat, t: nat)
    requires width > 0
    requires k < |Slices(s, width)| && t < |Slices(s, width)[k]|
    ensures k * width + t < |s|
    ensures Slices(s, width)[k][t] == s[k * width + t]
    decreases k
  {
    if k > 0 {
      assert |s| > width;
      assert Slices(s, width)[k] == Slices(s[width..], width)[k - 1];
      SlicesAt(s[width..], width, k - 1, t);
      assert (k - 1) * width + width == k * width;
    }
  }

  // ---------------------------------------------------------------------------
  // sep.join(parts)
  // ---------------------------------------------------------------------------

  /** Python's sep.join(parts): the parts with sep between each neighbouring pair. */
  function Join<T>(parts: seq<seq<T>>, sep: seq<T>): seq<T>
    decreases |parts|
  {
    if |parts| == 0 then []
    else if |parts| == 1 then parts[0]
    else parts[0] + sep + Join(parts[1..], sep)
  }

  /** n parts contribute their own elements and n - 1 copies of the separator. */
  lemma {:induction false} JoinLength<T>(parts: seq<seq<T>>, sep: seq<T>)
    requires |parts| > 0
    ensures |Join(parts, sep)| == |Concat(parts)| + (|parts| - 1) * |sep|
    decreases |parts|
  {
    if |parts| > 1 {
      JoinLength(parts[1..], sep);
      assert (|parts| - 1) * |sep| == (|parts| - 2) * |sep| + |sep|;
    }
  }

  lemma JoinCons<T>(first: seq<T>, rest: seq<seq<T>>, sep: seq<T>)
    requires |rest| > 0
    ensures Join([first] + rest, sep) == first + sep + Join(rest, sep)
  {
  }

  /** Joining a longer list appends the separator and the new part. */
  lemma {:induction false} JoinSnoc<T>(parts: seq<seq<T>>, last: seq<T>, sep: seq<T>)
    requires |parts| > 0
    ensures Join(parts + [last], sep) == Join(parts, sep) + sep + last
    decreases |parts|
  {
    if |parts| == 1 {
      assert parts + [last] == [parts[0], last];
      assert [parts[0], last][1..] == [last];
    } else {
      assert (parts + [last])[1..] == parts[1..] + [last];
      JoinSnoc(parts[1..], last, sep);
    }
  }

  // ---------------------------------------------------------------------------
  // Substring search: `pat in s` and s.find(pat)
  // ---------------------------------------------------------------------------

  /** pat occurs in s starting at index j. */
  predicate OccursAt<T(==)>(s: seq<T>, pat: seq<T>, j: int)
  {
    0 <= j && j + |pat| <= |s| && s[j..j + |pat|] == pat
  }

  lemma OccursShift<T>(s: seq<T>, pat: seq<T>)
    requires |s| > 0
    ensures forall j :: 1 <= j ==> (OccursAt(s, pat, j) <==> OccursAt(s[1..], pat, j - 1))
  {
  }

  /** The leftmost index at which pat occurs in s. */
  function IndexOf<T(==)>(s: seq<T>, pat: seq<T>): (r: Option<nat>)
    ensures r.Some? ==> OccursAt(s, pat, r.value)
    ensures r.Some? ==> forall j :: 0 <= j < r.value ==> !OccursAt(s, pat, j)
    ensures r.None? ==> forall j :: !OccursAt(s, pat, j)
    decreases |s|
  {
    if |s| < |pat| then None
    else if s[..|pat|] == pat then Some(0)
    else
      assert !OccursAt(s, pat, 0);
      OccursShift(s, pat);
      match IndexOf(s[1..], pat)
      case None => None
      case Some(i) => Some(i + 1)
  }

  /** Python's `pat in s`. */
  predicate Contains<T(==)>(s: seq<T>, pat: seq<T>)
  {
    IndexOf(s, pat).Some?
  }

  /** The leftmost occurrence is the only one with no occurrence before it. */
  lemma IndexOfLeftmost<T>(s: seq<T>, pat: seq<T>, i: nat)
    requires OccursAt(s, pat, i)
    requires forall j :: 0 <= j < i ==> !OccursAt(s, pat, j)
    ensures IndexOf(s, pat) == Some(i)
  {
  }

  /** An occurrence inside a prefix is an occurrence in the whole. */
  lemma OccursInPrefix<T>(a: seq<T>, b: seq<T>, pat: seq<T>, j: int)
    requires OccursAt(a, pat, j)
    ensures OccursAt(a + b, pat, j)
  {
  }

  // ---------------------------------------------------------------------------
  // s.split(sep) for a non-empty separator
  // ---------------------------------------------------------------------------

  /** Python's s.split(sep): the pieces between non-overlapping occurrences of
      sep, found left to right. */
  function SplitOn<T(==)>(s: seq<T>, sep: seq<T>): (r: seq<seq<T>>)
    requires |sep| > 0
    ensures |r| >= 1
    decreases |s|
  {
    match IndexOf(s, sep)
    case None => [s]
    case Some(i) => [s[..i]] + SplitOn(s[i + |sep|..], sep)
  }

  lemma SplitOnStep<T>(s: seq<T>, sep: seq<T>, i: nat)
    requires |sep| > 0
    requires IndexOf(s, sep) == Some(i)
    ensures SplitOn(s, sep) == [s[..i]] + SplitOn(s[i + |sep|..], sep)
  {
  }

  lemma OccursAtSplits<T>(s: seq<T>, pat: seq<T>, i: nat)
    requires OccursAt(s, pat, i)
    ensures s == s[..i] + pat + s[i + |pat|..]
  {
  }

  /** Joining the pieces of a split with the same separator gives back the input. */
  lemma {:induction false} JoinSplitOn<T>(s: seq<T>, sep: seq<T>)
    requires |sep| > 0
    ensures Join(SplitOn(s, sep), sep) == s
    decreases |s|
  {
    match IndexOf(s, sep)
    case None =>
    case Some(i) =>
      var rest := s[i + |sep|..];
      SplitOnStep(s, sep, i);
      JoinSplitOn(rest, sep);
      JoinCons(s[..i], SplitOn(rest, sep), sep);
      OccursAtSplits(s, sep, i);
  }

  /** A part free of the separator, even when followed by all but the last
      element of the separator, has no occurrence before the separator that
      follows it. */
  lemma NoOccurrenceBeforeSeparator<T>(p: seq<T>, sep: seq<T>, tail: seq<T>)
    requires |sep| > 0
    requires !Contains(p + sep[..|sep| - 1], sep)
    ensures forall j :: 0 <= j < |p| ==> !OccursAt(p + sep + tail, sep, j)
  {
    var s := p + sep + tail;
    var q := p + sep[..|sep| - 1];
    forall j | 0 <= j < |p| ensures OccursAt(s, sep, j) ==> OccursAt(q, sep, j) {
      if j + |sep| <= |s| {
        assert |q| == |p| + |sep| - 1;
        assert forall k :: 0 <= k < |q| ==> s[k] == q[k];
        assert s[j..j + |sep|] == q[j..j + |sep|];
      }
    }
  }

  /** Splitting a join gives back the parts, provided no separator can be found
      inside a part or straddling a part and the separator after it. */
  lemma {:induction false} SplitOnJoin<T>(parts: seq<seq<T>>, sep: seq<T>)
    requires |sep| > 0 && |parts| > 0
    requires forall k :: 0 <= k < |parts| ==> !Contains(parts[k] + sep[..|sep| - 1], sep)
    ensures SplitOn(Join(parts, sep), sep) == parts
    decreases |parts|
  {
    var p := parts[0];
    assert !Contains(p + sep[..|sep| - 1], sep);
    if |parts| == 1 {
      forall j | OccursAt(p, sep, j) ensures false {
        OccursInPrefix(p, sep[..|sep| - 1], sep, j);
      }
    } else {
      var tail := Join(parts[1..], sep);
      var s := p + sep + tail;
      JoinCons(p, parts[1..], sep);
      assert [p] + parts[1..] == parts;
      assert OccursAt(s, sep, |p|) by {
        assert s[|p|..|p| + |sep|] == sep;
      }
      NoOccurrenceBeforeSeparator(p, sep, tail);
      IndexOfLeftmost(s, sep, |p|);
      assert s[|p| + |sep|..] == tail;
      SplitOnStep(s, sep, |p|);
      SplitOnJoin(parts[1..], sep);
      assert s[..|p|] == p;
      assert Join(parts, sep) == s;
    }
  }

  /** The first piece of a split is everything before the first separator. */
  lemma SplitOnFirst<T>(s: seq<T>, sep: seq<T>)
    requires |sep| > 0
    ensures SplitOn(s, sep)[0] == (match IndexOf(s, sep) case Some(i) => s[..i] case None => s)
  {
  }

  // ---------------------------------------------------------------------------
  // Leading runs
  // ---------------------------------------------------------------------------

  /** The length of the longest prefix of s whose elements all satisfy inRun. */
  function RunLength<T>(s: seq<T>, inRun: T -> bool): (n: nat)
    ensures n <= |s|
    ensures forall i :: 0 <= i < n ==> inRun(s[i])
    ensures n < |s| ==> !inRun(s[n])
    decreases |s|
  {
    if |s| == 0 || !inRun(s[0]) then 0 else 1 + RunLength(s[1..], inRun)
  }
}
