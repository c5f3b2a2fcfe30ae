/**
  The OU path hierarchy test of main.py: `is_under(user_ou, ou_path)` and its
  inner `norm`. Paths are strings; a missing path (`None`) counts as "".
 */
module Paths {
  import opened Wrappers

  /** The characters `str.strip()` removes, restricted to the ASCII range. */
  predicate IsSpace(c: char) {
    c == ' ' || c == '\t' || c == '\n' || c == '\r' || c == '\U{B}' || c == '\U{C}'
    || c == '\U{1C}' || c == '\U{1D}' || c == '\U{1E}' || c == '\U{1F}'
  }

  predicate AllSpace(s: string) {
    forall i :: 0 <= i < |s| ==> IsSpace(s[i])
  }

  predicate AllSlash(s: string) {
    forall i :: 0 <= i < |s| ==> s[i] == '/'
  }

  /** `s.lstrip()`: what is left after the leading white space. */
  function LStrip(s: string): (r: string)
    ensures |r| <= |s|
    ensures r == [] || !IsSpace(r[0])
  {
    if s == [] || !IsSpace(s[0]) then s else LStrip(s[1..])
  }

  /** What `lstrip` leaves is a suffix of its argument. */
  lemma {:induction false} LStripIsSuffix(s: string)
    ensures LStrip(s) == s[|s| - |LStrip(s)|..]
    decreases |s|
  {
    if s != [] && IsSpace(s[0]) {
      LStripIsSuffix(s[1..]);
    }
  }

  /** `s.rstrip()`: what is left before the trailing white space. */
  function RStripSpace(s: string): (r: string)
    ensures |r| <= |s| && r == s[..|r|]
    ensures r == [] || !IsSpace(r[|r| - 1])
  {
    if s == [] || !IsSpace(s[|s| - 1]) then s else RStripSpace(s[..|s| - 1])
  }

  /** `s.rstrip('/')`: what is left before the trailing slashes. */
  function RStripSlash(s: string): (r: string)
    ensures |r| <= |s| && r == s[..|r|]
    ensures r == [] || r[|r| - 1] != '/'
  {
    if s == [] || s[|s| - 1] != '/' then s else RStripSlash(s[..|s| - 1])
  }

  /** `s.strip()` */
  function Strip(s: string): string {
    RStripSpace(LStrip(s))
  }

  /** `norm(p)`: `p.strip().rstrip('/')`. */
  function Norm(p: string): string {
    RStripSlash(Strip(p))
  }

  /** Python's `p or ''` for a path that may be `None`. */
  function OrEmpty(p: Option<string>): string {
    match p
    case None => ""
    case Some(s) => s
  }

  /**
    `is_under(user_ou, ou_path)`: after normalising both, the user's path is
    the target path itself or starts with the target path followed by '/'.
   */
  predicate IsUnder(userOu: Option<string>, ouPath: Option<string>) {
    Within(Norm(OrEmpty(userOu)), Norm(OrEmpty(ouPath)))
  }

  /** The comparison `is_under` makes once both paths are normalised. */
  predicate Within(u: string, o: string) {
    u == o || o + "/" <= u
  }

  // ---------------------------------------------------------------------------
  // An independent reference: the path's '/'-separated segments

  /** `s.split('/')` */
  function Segments(s: string): (r: seq<string>)
    ensures |r| >= 1
  {
    if s == [] then [[]]
    else
      var rest := Segments(s[1..]);
      if s[0] == '/' then [[]] + rest else [[s[0]] + rest[0]] + rest[1..]
  }

  /** `'/'.join(segs)` for a non-empty list of segments. */
  function Join(segs: seq<string>): string
    requires |segs| >= 1
  {
    if |segs| == 1 then segs[0] else segs[0] + "/" + Join(segs[1..])
  }

  predicate NoSlash(s: string) {
    forall i :: 0 <= i < |s| ==> s[i] != '/'
  }

  lemma SegmentsHaveNoSlash(s: string)
    ensures forall k :: 0 <= k < |Segments(s)| ==> NoSlash(Segments(s)[k])
  {
  }

  lemma ConcatAssoc<T>(a: seq<T>, b: seq<T>, c: seq<T>)
    ensures (a + b) + c == a + (b + c)
  {
  }

  /** Gluing a character onto the first segment puts it in front of the joined path. */
  lemma JoinGlue(c: char, segs: seq<string>)
    requires |segs| >= 1
    ensures Join([[c] + segs[0]] + segs[1..]) == [c] + Join(segs)
  {
    var glued := [[c] + segs[0]] + segs[1..];
    var head := [c] + segs[0];
    assert glued[0] == head;
    if |segs| > 1 {
      assert glued[1..] == segs[1..];
      var tail := Join(segs[1..]);
      assert Join(glued) == head + "/" + tail;
      assert Join(segs) == segs[0] + "/" + tail;
      ConcatAssoc([c], segs[0], "/" + tail);
      ConcatAssoc(head, "/", tail);
      ConcatAssoc(segs[0], "/", tail);
    }
  }

  /** Joining the segments with '/' gives the path back. */
  lemma {:induction false} JoinSegments(s: string)
    ensures Join(Segments(s)) == s
  {
    if s != [] {
      var rest := Segments(s[1..]);
      JoinSegments(s[1..]);
      assert s == [s[0]] + s[1..];
      if s[0] == '/' {
        assert ([[]] + rest)[1..] == rest;
      } else {
        JoinGlue(s[0], rest);
      }
    }
  }

  /** Splitting a slash-free prefix glues it onto the first segment. */
  lemma {:induction false} SegmentsOfPrefixed(x: string, t: string)
    requires NoSlash(x)
    ensures Segments(x + t) == [x + Segments(t)[0]] + Segments(t)[1..]
    decreases |x|
  {
    if x == [] {
      assert x + t == t;
      assert x + Segments(t)[0] == Segments(t)[0];
      assert Segments(t) == [Segments(t)[0]] + Segments(t)[1..];
    } else {
      assert (x + t)[1..] == x[1..] + t;
      SegmentsOfPrefixed(x[1..], t);
      assert [x[0]] + (x[1..] + Segments(t)[0]) == x + Segments(t)[0];
    }
  }

  /** Splitting a join of slash-free segments gives the segments back. */
  lemma {:induction false} SegmentsOfJoin(segs: seq<string>)
    requires |segs| >= 1
    requires forall k :: 0 <= k < |segs| ==> NoSlash(segs[k])
    ensures Segments(Join(segs)) == segs
  {
    if |segs| == 1 {
      SegmentsOfPrefixed(segs[0], []);
      assert segs[0] + [] == segs[0];
    } else {
      var tail := "/" + Join(segs[1..]);
      SegmentsOfJoin(segs[1..]);
      assert tail[1..] == Join(segs[1..]);
      assert Segments(tail) == [[]] + segs[1..];
      SegmentsOfPrefixed(segs[0], tail);
      assert segs[0] + "/" + Join(segs[1..]) == segs[0] + tail;
      assert segs[0] + [] == segs[0];
    }
  }

  /** The first segment is empty exactly for "" and for a path starting with '/'. */
  lemma FirstSegmentEmpty(u: string)
    ensures Segments(u)[0] == [] <==> (u == [] || u[0] == '/')
  {
  }

  lemma PrefixCons<T>(a: T, b: T, x: seq<T>, y: seq<T>)
    ensures [a] + x <= [b] + y <==> a == b && x <= y
  {
    if [a] + x <= [b] + y {
      assert ([a] + x)[0] == ([b] + y)[0];
      assert x == ([a] + x)[1..] && y == ([b] + y)[1..];
    }
  }

  /**
    Segment-boundary matching: `u` equals `o` or starts with `o + "/"` exactly
    when the segments of `o` form a prefix of the segments of `u`.
   */
  lemma {:induction false} SegmentsPrefix(o: string, u: string)
    ensures Segments(o) <= Segments(u) <==> Within(u, o)
    decreases |o|
  {
    var so, su := Segments(o), Segments(u);
    if o == [] {
      FirstSegmentEmpty(u);
      assert so == [[]];
      assert so <= su <==> su[0] == [];
      assert o + "/" == "/";
    } else if u == [] {
      assert su == [[]];
      if o[0] == '/' {
        assert |so| >= 2;
      } else {
        assert so[0] != [];
      }
    } else {
      var ro, ru := Segments(o[1..]), Segments(u[1..]);
      SegmentsPrefix(o[1..], u[1..]);
      assert o == [o[0]] + o[1..] && u == [u[0]] + u[1..];
      assert o + "/" == [o[0]] + (o[1..] + "/");
      assert (o + "/" <= u) <==> (o[0] == u[0] && o[1..] + "/" <= u[1..]);
      if o[0] == '/' && u[0] == '/' {
        assert so == [[]] + ro && su == [[]] + ru;
        PrefixCons([], [], ro, ru);
      } else if o[0] == '/' {
        assert so[0] == [] && su[0] != [];
      } else if u[0] == '/' {
        assert so[0] != [] && su[0] == [];
      } else {
        assert so == [[o[0]] + ro[0]] + ro[1..];
        assert su == [[u[0]] + ru[0]] + ru[1..];
        assert ro == [ro[0]] + ro[1..] && ru == [ru[0]] + ru[1..];
        PrefixCons([o[0]] + ro[0], [u[0]] + ru[0], ro[1..], ru[1..]);
        PrefixCons(ro[0], ru[0], ro[1..], ru[1..]);
        assert ([o[0]] + ro[0] == [u[0]] + ru[0]) <==> (o[0] == u[0] && ro[0] == ru[0]) by {
          if [o[0]] + ro[0] == [u[0]] + ru[0] {
            assert ([o[0]] + ro[0])[0] == o[0] && ([o[0]] + ro[0])[1..] == ro[0];
            assert ([u[0]] + ru[0])[0] == u[0] && ([u[0]] + ru[0])[1..] == ru[0];
          }
        }
      }
    }
  }

  /** `is_under` is segment-prefix order on normalised paths. */
  lemma IsUnderBySegments(userOu: Option<string>, ouPath: Option<string>)
    ensures IsUnder(userOu, ouPath)
        <==> Segments(Norm(OrEmpty(ouPath))) <= Segments(Norm(OrEmpty(userOu)))
  {
    var u, o := Norm(OrEmpty(userOu)), Norm(OrEmpty(ouPath));
    SegmentsPrefix(o, u);
  }

  // ---------------------------------------------------------------------------
  // Properties of is_under

  lemma IsUnderReflexive(p: Option<string>)
    ensures IsUnder(p, p)
  {
  }

  lemma IsUnderTransitive(a: Option<string>, b: Option<string>, c: Option<string>)
    requires IsUnder(a, b) && IsUnder(b, c)
    ensures IsUnder(a, c)
  {
    WithinTransitive(Norm(OrEmpty(a)), Norm(OrEmpty(b)), Norm(OrEmpty(c)));
  }

  lemma WithinTransitive(u: string, m: string, o: string)
    requires Within(u, m) && Within(m, o)
    ensures Within(u, o)
  {
    if u != m && m != o {
      assert o + "/" <= m && m + "/" <= u;
      assert o + "/" == m[..|o| + 1];
      assert m == u[..|m|];
    }
  }

  lemma IsUnderSegmentBoundary()
    ensures IsUnder(Some("/A/B"), Some("/A"))
    ensures !IsUnder(Some("/AB"), Some("/A"))
    ensures !IsUnder(Some("/A"), Some("/A/B"))
  {
    NormClean("/A/B");
    NormClean("/AB");
    NormClean("/A");
    assert "/A/" <= "/A/B";
    assert !("/A/" <= "/AB") by {
      assert "/AB"[2] != "/A/"[2];
    }
    assert !("/A/B/" <= "/A");
  }

  /** A path without surrounding white space or trailing slash is its own normal form. */
  lemma NormClean(p: string)
    requires p != [] && !IsSpace(p[0]) && !IsSpace(p[|p| - 1]) && p[|p| - 1] != '/'
    ensures Norm(p) == p
  {
    assert LStrip(p) == p;
    RStripSpaceClean(p);
  }

  lemma RStripSpaceClean(s: string)
    requires s == [] || !IsSpace(s[|s| - 1])
    ensures RStripSpace(s) == s
  {
  }

  lemma IsUnderNoneIsEmpty(p: Option<string>)
    ensures IsUnder(None, p) == IsUnder(Some(""), p)
    ensures IsUnder(p, None) == IsUnder(p, Some(""))
  {
  }

  lemma {:induction false} LStripSpaces(w: string, s: string)
    requires AllSpace(w)
    ensures LStrip(w + s) == LStrip(s)
    decreases |w|
  {
    if w == [] {
      assert w + s == s;
    } else {
      assert (w + s)[1..] == w[1..] + s;
      LStripSpaces(w[1..], s);
    }
  }

  lemma {:induction false} RStripSpaces(s: string, w: string)
    requires AllSpace(w)
    ensures RStripSpace(s + w) == RStripSpace(s)
    decreases |w|
  {
    if w == [] {
      assert s + w == s;
    } else {
      var n := |w| - 1;
      assert (s + w)[..|s + w| - 1] == s + w[..n];
      RStripSpaces(s, w[..n]);
    }
  }

  lemma {:induction false} LStripKeepsTail(s: string, t: string)
    requires LStrip(s) != []
    ensures LStrip(s + t) == LStrip(s) + t
    decreases |s|
  {
    if !IsSpace(s[0]) {
    } else {
      assert (s + t)[1..] == s[1..] + t;
      LStripKeepsTail(s[1..], t);
    }
  }

  /** Only white space strips away to nothing. */
  lemma {:induction false} LStripEmpty(s: string)
    requires LStrip(s) == []
    ensures AllSpace(s)
    decreases |s|
  {
    if s != [] {
      LStripEmpty(s[1..]);
      forall i | 0 <= i < |s| ensures IsSpace(s[i]) {
        if i > 0 {
          assert s[i] == s[1..][i - 1];
        }
      }
    }
  }

  lemma LStripAllSpace(s: string)
    requires AllSpace(s)
    ensures LStrip(s) == []
    decreases |s|
  {
    if s != [] {
      LStripAllSpace(s[1..]);
    }
  }

  /** Surrounding white space does not change a path's normal form. */
  lemma NormIgnoresSpace(w1: string, p: string, w2: string)
    requires AllSpace(w1) && AllSpace(w2)
    ensures Norm(w1 + p + w2) == Norm(p)
  {
    assert w1 + p + w2 == w1 + (p + w2);
    LStripSpaces(w1, p + w2);
    if LStrip(p) != [] {
      LStripKeepsTail(p, w2);
      RStripSpaces(LStrip(p), w2);
    } else {
      LStripEmpty(p);
      assert AllSpace(p + w2);
      LStripAllSpace(p + w2);
    }
  }

  lemma {:induction false} RStripSlashes(s: string, t: string)
    requires AllSlash(t)
    ensures RStripSlash(s + t) == RStripSlash(s)
    decreases |t|
  {
    if t == [] {
      assert s + t == s;
    } else {
      var n := |t| - 1;
      assert (s + t)[..|s + t| - 1] == s + t[..n];
      RStripSlashes(s, t[..n]);
    }
  }

  /** Stripping white space leaves the slashes appended to a path that does not end in white space. */
  lemma StripKeepsSlashes(p: string, t: string)
    requires p == [] || !IsSpace(p[|p| - 1])
    requires AllSlash(t) && t != []
    ensures Strip(p + t) == Strip(p) + t
  {
    var l := LStrip(p);
    if l != [] {
      LStripKeepsTail(p, t);
      LStripIsSuffix(p);
      assert l[|l| - 1] == p[|p| - 1];
      RStripSpaceClean(l);
      assert (l + t)[|l + t| - 1] == '/';
      RStripSpaceClean(l + t);
    } else {
      LStripEmpty(p);
      assert p + t == t;
      assert LStrip(t) == t;
      RStripSpaceClean(t);
    }
  }

  /** Trailing slashes do not change the normal form of a path that does not end in white space. */
  lemma NormIgnoresTrailingSlashes(p: string, t: string)
    requires p == [] || !IsSpace(p[|p| - 1])
    requires AllSlash(t)
    ensures Norm(p + t) == Norm(p)
  {
    if t == [] {
      assert p + t == p;
    } else {
      StripKeepsSlashes(p, t);
      RStripSlashes(Strip(p), t);
    }
  }

  /** `is_under` ignores surrounding white space on either argument. */
  lemma IsUnderIgnoresSpace(w1: string, p: string, w2: string, q: Option<string>)
    requires AllSpace(w1) && AllSpace(w2)
    ensures IsUnder(Some(w1 + p + w2), q) == IsUnder(Some(p), q)
    ensures IsUnder(q, Some(w1 + p + w2)) == IsUnder(q, Some(p))
  {
    NormIgnoresSpace(w1, p, w2);
    IsUnderRespectsNorm(Some(w1 + p + w2), Some(p), q);
  }

  /** `is_under` ignores trailing slashes on either argument. */
  lemma IsUnderIgnoresTrailingSlashes(p: string, t: string, q: Option<string>)
    requires p == [] || !IsSpace(p[|p| - 1])
    requires AllSlash(t)
    ensures IsUnder(Some(p + t), q) == IsUnder(Some(p), q)
    ensures IsUnder(q, Some(p + t)) == IsUnder(q, Some(p))
  {
    NormIgnoresTrailingSlashes(p, t);
    IsUnderRespectsNorm(Some(p + t), Some(p), q);
  }

  /** `is_under` sees its arguments only through their normal forms. */
  lemma IsUnderRespectsNorm(a: Option<string>, b: Option<string>, q: Option<string>)
    requires Norm(OrEmpty(a)) == Norm(OrEmpty(b))
    ensures IsUnder(a, q) == IsUnder(b, q)
    ensures IsUnder(q, a) == IsUnder(q, b)
  {
  }
}
