/** The file-name sanitiser shared by the upload handler (backend/index.js:25-26) and the
    bulk import script (backend/scripts/bulkImport.js:21): `name.replace(/[^\w.\-]+/g, "_")`
    prefixed with the millisecond clock and a dash. */
module FileNames {
  import opened Text
  import opened Schema

  /** The characters the pattern `[\w.\-]` keeps: ASCII letters, digits, `_`, `.` and `-`. */
  predicate IsSafe(c: char) {
    'A' <= c <= 'Z' || 'a' <= c <= 'z' || '0' <= c <= '9' || c == '_' || c == '.' || c == '-'
  }

  predicate AllSafe(s: string) { forall i :: 0 <= i < |s| ==> IsSafe(s[i]) }

  /** Drops the run of unsafe characters at the head of `s`. */
  function SkipUnsafe(s: string): (r: string)
    ensures |r| <= |s|
  {
    if s != [] && !IsSafe(s[0]) then SkipUnsafe(s[1..]) else s
  }

  /** Every maximal run of unsafe characters becomes a single `_`. */
  function Sanitize(s: string): (r: string)
    ensures AllSafe(r)
    ensures |r| <= |s|
    decreases |s|
  {
    if s == [] then []
    else if IsSafe(s[0]) then [s[0]] + Sanitize(s[1..])
    else "_" + Sanitize(SkipUnsafe(s[1..]))
  }

  /** A name made only of safe characters is left as it is. */
  lemma {:induction false} SanitizeKeepsSafe(s: string)
    requires AllSafe(s)
    ensures Sanitize(s) == s
    decreases |s|
  {
    if s != [] {
      SanitizeKeepsSafe(s[1..]);
      assert s == [s[0]] + s[1..];
    }
  }

  /** Sanitising twice is sanitising once. */
  lemma {:induction false} SanitizeIdempotent(s: string)
    ensures Sanitize(Sanitize(s)) == Sanitize(s)
  {
    SanitizeKeepsSafe(Sanitize(s));
  }

  /** The sanitiser changes a name exactly when the name holds an unsafe character. */
  lemma {:induction false} SanitizeFixpointIff(s: string)
    ensures Sanitize(s) == s <==> AllSafe(s)
  {
    if AllSafe(s) { SanitizeKeepsSafe(s); }
  }

  /** A safe prefix passes through unchanged. */
  lemma {:induction false} SanitizeSafePrefix(p: string, s: string)
    requires AllSafe(p)
    ensures Sanitize(p + s) == p + Sanitize(s)
    decreases |p|
  {
    if p != [] {
      var t := p + s;
      assert t[0] == p[0] && IsSafe(p[0]);
      assert t[1..] == p[1..] + s;
      assert Sanitize(t) == [p[0]] + Sanitize(p[1..] + s);
      SanitizeSafePrefix(p[1..], s);
      assert [p[0]] + (p[1..] + Sanitize(s)) == p + Sanitize(s);
    } else {
      assert p + s == s;
    }
  }

  lemma {:induction false} SkipUnsafeRun(u: string, s: string)
    requires forall i :: 0 <= i < |u| ==> !IsSafe(u[i])
    requires s == [] || IsSafe(s[0])
    ensures SkipUnsafe(u + s) == s
    decreases |u|
  {
    if u != [] {
      assert (u + s)[1..] == u[1..] + s;
      SkipUnsafeRun(u[1..], s);
    } else {
      assert u + s == s;
    }
  }

  /** A whole run of unsafe characters, however long, becomes one `_`. */
  lemma {:induction false} SanitizeUnsafeRun(u: string, s: string)
    requires u != [] && forall i :: 0 <= i < |u| ==> !IsSafe(u[i])
    requires s == [] || IsSafe(s[0])
    ensures Sanitize(u + s) == "_" + Sanitize(s)
  {
    assert (u + s)[0] == u[0];
    assert (u + s)[1..] == u[1..] + s;
    SkipUnsafeRun(u[1..], s);
  }

  /** Different names can sanitise to the same stored name. */
  lemma SanitizeMergesNames()
    ensures Sanitize("a b") == Sanitize("a?b") == "a_b"
  {
    assert "a b" == "a" + (" " + "b");
    assert "a?b" == "a" + ("?" + "b");
    SanitizeSafePrefix("a", " b");
    SanitizeSafePrefix("a", "?b");
    SanitizeUnsafeRun(" ", "b");
    SanitizeUnsafeRun("?", "b");
    SanitizeKeepsSafe("b");
  }

  /** `${Date.now()}-${safe}`: the name a stored copy gets in the uploads directory. */
  function StoredName(stamp: nat, original: string): (name: string)
    ensures AllSafe(name)
    ensures StartsWith(name, Decimal(stamp) + "-")
    ensures name[|Decimal(stamp)| + 1..] == Sanitize(original)
  {
    var name := Decimal(stamp) + "-" + Sanitize(original);
    assert name[..|Decimal(stamp)| + 1] == Decimal(stamp) + "-";
    name
  }

  /** The path of the stored copy: the stored name inside the uploads directory. */
  function StoredPath(dir: string, stamp: nat, original: string): (p: string)
    ensures StartsWith(p, dir + "/")
    ensures AllSafe(p[|dir| + 1..])
    ensures p[|dir| + 1..] == StoredName(stamp, original)
  {
    var p := PathJoin(dir, StoredName(stamp, original));
    assert p[..|dir| + 1] == dir + "/";
    p
  }
}
