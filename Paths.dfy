/**
 * The stored path format: every id of the chain, root first, each followed by
 * the delimiter. `ExtractPath` is PHP's explode on the delimiter followed by
 * dropping the last element; `JoinPath` is how the attachment operations
 * build a path.
 */
module Paths {
  import opened Decimal

  const Delimiter: char := '/'

  predicate SlashFree(t: string) {
    Delimiter !in t
  }

  predicate AllSlashFree(ts: seq<string>) {
    forall i :: 0 <= i < |ts| ==> SlashFree(ts[i])
  }

  /** A path the split can read back exactly: empty, or ending with the delimiter. */
  predicate WellTerminated(path: string) {
    path == [] || path[|path| - 1] == Delimiter
  }

  /** PHP's implode: the parts with one delimiter between neighbours. */
  function Implode(parts: seq<string>): string
    requires |parts| >= 1
  {
    if |parts| == 1 then parts[0] else parts[0] + [Delimiter] + Implode(parts[1..])
  }

  /**
   * PHP's explode on the delimiter: the maximal delimiter-free pieces of `s`,
   * in order; the empty string gives one empty piece.
   */
  function Explode(s: string): (parts: seq<string>)
    ensures |parts| >= 1 && AllSlashFree(parts)
    ensures Implode(parts) == s
    decreases |s|
  {
    if s == [] then [""]
    else
      var rest := Explode(s[1..]);
      if s[0] == Delimiter then
        assert [s[0]] + s[1..] == s;
        [""] + rest
      else
        assert [s[0]] + s[1..] == s;
        [[s[0]] + rest[0]] + rest[1..]
  }

  /** The stored form of a chain of ids: each id followed by the delimiter. */
  function JoinPath(ids: seq<string>): string {
    if ids == [] then [] else ids[0] + [Delimiter] + JoinPath(ids[1..])
  }

  /** `_extractPath`: split the path on the delimiter and drop the last piece. */
  function ExtractPath(path: string): (ids: seq<string>)
    ensures AllSlashFree(ids)
  {
    var parts := Explode(path);
    parts[..|parts| - 1]
  }

  /**
   * `preg_replace('/\d\/$/', '', s)`: remove ONE digit and the delimiter at
   * the end of `s`. PCRE's `$` also matches just before a final line feed,
   * which the pattern then keeps. Either nothing or exactly two characters
   * go: never more than one digit of the last id.
   */
  function StripDigitDelimiter(s: string): (r: string)
    ensures r == s || |r| + 2 == |s|
  {
    var n := |s|;
    if n >= 2 && s[n - 1] == Delimiter && IsDigit(s[n - 2]) then s[..n - 2]
    else if n >= 3 && s[n - 1] == '\n' && s[n - 2] == Delimiter && IsDigit(s[n - 3]) then s[..n - 3] + "\n"
    else s
  }

  lemma {:induction false} ExplodeSlashFree(t: string)
    requires SlashFree(t)
    ensures Explode(t) == [t]
    decreases |t|
  {
    if t != [] {
      ExplodeSlashFree(t[1..]);
      assert [t[0]] + t[1..] == t;
    }
  }

  lemma {:induction false} ExplodeSegment(seg: string, u: string)
    requires SlashFree(seg)
    ensures Explode(seg + [Delimiter] + u) == [seg] + Explode(u)
    decreases |seg|
  {
    var s := seg + [Delimiter] + u;
    if seg == [] {
      assert s == [Delimiter] + u;
      assert s[1..] == u;
    } else {
      ExplodeSegment(seg[1..], u);
      assert s[1..] == seg[1..] + [Delimiter] + u;
      assert [seg[0]] + seg[1..] == seg;
    }
  }

  /** Explode is the only delimiter-free split whose implode is the input. */
  lemma {:induction false} ExplodeImplode(parts: seq<string>)
    requires |parts| >= 1 && AllSlashFree(parts)
    ensures Explode(Implode(parts)) == parts
  {
    if |parts| == 1 {
      ExplodeSlashFree(parts[0]);
    } else {
      ExplodeSegment(parts[0], Implode(parts[1..]));
      ExplodeImplode(parts[1..]);
      assert [parts[0]] + parts[1..] == parts;
    }
  }

  lemma {:induction false} JoinPathAppend(a: seq<string>, b: seq<string>)
    ensures JoinPath(a + b) == JoinPath(a) + JoinPath(b)
  {
    if a == [] {
      assert a + b == b;
    } else {
      assert (a + b)[1..] == a[1..] + b;
      JoinPathAppend(a[1..], b);
    }
  }

  lemma {:induction false} JoinPathTerminated(ids: seq<string>)
    ensures WellTerminated(JoinPath(ids))
  {
    if ids != [] {
      JoinPathTerminated(ids[1..]);
    }
  }

  lemma ConsAppend<T>(a: seq<T>, b: seq<T>)
    requires a != []
    ensures [a[0]] + (a[1..] + b) == a + b
  {
    assert [a[0]] + a[1..] == a;
  }

  lemma {:induction false} ExplodeAfterJoin(ids: seq<string>, t: string)
    requires AllSlashFree(ids)
    ensures Explode(JoinPath(ids) + t) == ids + Explode(t)
  {
    if ids == [] {
      assert JoinPath(ids) + t == t;
    } else {
      var tail := JoinPath(ids[1..]) + t;
      assert JoinPath(ids) + t == ids[0] + [Delimiter] + tail;
      ExplodeSegment(ids[0], tail);
      ExplodeAfterJoin(ids[1..], t);
      assert Explode(tail) == ids[1..] + Explode(t);
      ConsAppend(ids, Explode(t));
    }
  }

  lemma DropLastAppend<T>(a: seq<T>, b: seq<T>)
    requires b != []
    ensures (a + b)[..|a + b| - 1] == a + b[..|b| - 1]
  {
  }

  /** Extracting a path that starts with a built chain yields that chain first. */
  lemma ExtractPathAfterJoin(ids: seq<string>, t: string)
    requires AllSlashFree(ids)
    ensures ExtractPath(JoinPath(ids) + t) == ids + ExtractPath(t)
  {
    var whole := JoinPath(ids) + t;
    ExplodeAfterJoin(ids, t);
    var e := Explode(t);
    assert Explode(whole) == ids + e;
    DropLastAppend(ids, e);
    assert ExtractPath(whole) == (ids + e)[..|ids + e| - 1];
  }

  /** `_extractPath` inverts path construction: a built chain of delimiter-free ids comes back exactly. */
  lemma ExtractJoin(ids: seq<string>)
    requires AllSlashFree(ids)
    ensures ExtractPath(JoinPath(ids)) == ids
  {
    ExtractPathAfterJoin(ids, []);
    assert JoinPath(ids) + [] == JoinPath(ids);
  }

  lemma {:induction false} ImplodeAsJoin(parts: seq<string>)
    requires |parts| >= 1
    ensures Implode(parts) == JoinPath(parts[..|parts| - 1]) + parts[|parts| - 1]
  {
    if |parts| > 1 {
      ImplodeAsJoin(parts[1..]);
      var init := parts[..|parts| - 1];
      assert init == [parts[0]] + parts[1..][..|parts| - 2];
      assert init[1..] == parts[1..][..|parts| - 2];
    }
  }

  /**
   * Rebuilding the extracted ids gives the path back exactly when the path
   * is empty or ends with the delimiter; otherwise the final piece is lost.
   */
  lemma ExtractPathRoundTrip(path: string)
    ensures JoinPath(ExtractPath(path)) == path <==> WellTerminated(path)
  {
    var parts := Explode(path);
    var last := parts[|parts| - 1];
    ImplodeAsJoin(parts);
    JoinPathTerminated(ExtractPath(path));
    assert path == JoinPath(ExtractPath(path)) + last;
  }

  /** The strip applied to a built chain whose last id ends with a digit removes only that digit. */
  lemma StripAfterChain(init: seq<string>, last: string)
    requires AllSlashFree(init) && |last| >= 1 && IsDigit(last[|last| - 1])
    ensures StripDigitDelimiter(JoinPath(init + [last])) == JoinPath(init) + last[..|last| - 1]
  {
    JoinPathAppend(init, [last]);
    assert JoinPath([last]) == last + [Delimiter];
    var s := JoinPath(init + [last]);
    assert s == JoinPath(init) + last[..|last| - 1] + [last[|last| - 1]] + [Delimiter];
  }
}
