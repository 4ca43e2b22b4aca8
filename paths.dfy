/** File-system path helpers the bookmark store relies on. */
module Paths {

  /** The longest suffix of `s` that holds no '/'. */
  function LastSegment(s: string): (r: string)
    ensures '/' !in r
    ensures |r| <= |s|
    decreases |s|
  {
    if |s| == 0 || s[|s| - 1] == '/' then ""
    else LastSegment(s[..|s| - 1]) + [s[|s| - 1]]
  }

  /** The last segment is a suffix of `s`, and it is the longest one without
      a '/': the character before it, if any, is '/'. */
  lemma {:induction false} LastSegmentIsSuffix(s: string)
    ensures var r := LastSegment(s);
            r == s[|s| - |r|..] && (|r| < |s| ==> s[|s| - |r| - 1] == '/')
    decreases |s|
  {
    if |s| > 0 && s[|s| - 1] != '/' {
      var t := s[..|s| - 1];
      LastSegmentIsSuffix(t);
      var r := LastSegment(t);
      assert s[|s| - |r| - 1..] == t[|t| - |r|..] + [s[|s| - 1]];
    }
  }

  /** `s` without any run of trailing '/' characters. */
  function StripTrailingSlashes(s: string): (r: string)
    ensures |r| <= |s|
    ensures |r| < |s| ==> s[|s| - 1] == '/'
    decreases |s|
  {
    if |s| > 0 && s[|s| - 1] == '/' then StripTrailingSlashes(s[..|s| - 1]) else s
  }

  /** Stripping removes only a trailing run of '/' and leaves a prefix that
      is empty or does not end in '/'. */
  lemma {:induction false} StripTrailingSlashesIsPrefix(s: string)
    ensures var r := StripTrailingSlashes(s);
            r == s[..|r|] && (r == [] || r[|r| - 1] != '/')
            && forall k :: |r| <= k < |s| ==> s[k] == '/'
    decreases |s|
  {
    if |s| > 0 && s[|s| - 1] == '/' {
      var t := s[..|s| - 1];
      StripTrailingSlashesIsPrefix(t);
      var r := StripTrailingSlashes(t);
      assert t[..|r|] == s[..|r|];
      forall k | |r| <= k < |s| ensures s[k] == '/' {
        if k < |t| { assert t[k] == s[k]; }
      }
    }
  }

  /** Node's `path.basename` on POSIX paths: the last segment after trailing
      separators are ignored; "" for "" and for a path made only of '/'. */
  function BaseName(p: string): (r: string)
    ensures '/' !in r
    ensures |r| <= |p|
  {
    LastSegment(StripTrailingSlashes(p))
  }

  /** The base name of a path that ends in `dir/seg` (with any number of
      trailing separators) is `seg`. */
  lemma {:induction false} BaseNameOfJoin(dir: string, seg: string, trailing: nat)
    requires seg != [] && '/' !in seg
    ensures BaseName(dir + "/" + seg + seq(trailing, _ => '/')) == seg
  {
    var slashes: string := seq(trailing, _ => '/');
    var p := dir + "/" + seg + slashes;
    StripSlashRun(dir + "/" + seg, trailing);
    assert StripTrailingSlashes(p) == dir + "/" + seg;
    LastSegmentOfJoin(dir, seg);
  }

  lemma {:induction false} StripSlashRun(s: string, trailing: nat)
    requires s != [] && s[|s| - 1] != '/'
    ensures StripTrailingSlashes(s + seq(trailing, _ => '/')) == s
    decreases trailing
  {
    var slashes: string := seq(trailing, _ => '/');
    if trailing > 0 {
      var shorter: string := seq(trailing - 1, _ => '/');
      assert (s + slashes)[..|s + slashes| - 1] == s + shorter;
      StripSlashRun(s, trailing - 1);
    } else {
      assert s + slashes == s;
    }
  }

  lemma {:induction false} LastSegmentOfJoin(dir: string, seg: string)
    requires '/' !in seg
    ensures LastSegment(dir + "/" + seg) == seg
    decreases |seg|
  {
    var p := dir + "/" + seg;
    if seg == [] {
      assert p[|p| - 1] == '/';
    } else {
      var n := |seg| - 1;
      assert p[..|p| - 1] == dir + "/" + seg[..n];
      assert '/' !in seg[..n] by {
        forall k | 0 <= k < n ensures seg[..n][k] != '/' { assert seg[..n][k] == seg[k]; }
      }
      LastSegmentOfJoin(dir, seg[..n]);
      assert p[|p| - 1] == seg[n];
      assert seg[..n] + [seg[n]] == seg;
    }
  }
}
