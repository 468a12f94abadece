/** `Paths.get(s)` on the Unix file-system provider: a NUL character makes the
    string an invalid path (`InvalidPathException`); otherwise runs of `/` are
    collapsed to one and a trailing `/` is dropped, except for the root "/". */
module UnixPath {
  import opened Wrappers

  predicate NoDoubleSlash(t: string) {
    forall i :: 0 <= i < |t| - 1 ==> !(t[i] == '/' && t[i + 1] == '/')
  }

  /** The characters of `t` other than `/`, in order. */
  function NonSlash(t: string): string {
    if |t| == 0 then []
    else if t[|t| - 1] == '/' then NonSlash(t[..|t| - 1])
    else NonSlash(t[..|t| - 1]) + [t[|t| - 1]]
  }

  /** The non-empty names between the separators of `t`, in order:
      `Names("/a//bc/") == ["a", "bc"]`. */
  function Names(t: string): (ns: seq<string>)
    ensures |t| > 0 && t[|t| - 1] != '/' ==> |ns| > 0
  {
    if |t| == 0 then []
    else
      var p, c := t[..|t| - 1], t[|t| - 1];
      if c == '/' then Names(p)
      else if |p| > 0 && p[|p| - 1] != '/' then
        var ns := Names(p);
        ns[..|ns| - 1] + [ns[|ns| - 1] + [c]]
      else Names(p) + [[c]]
  }

  predicate IsAbsolute(t: string) {
    |t| > 0 && t[0] == '/'
  }

  /** Collapses every run of `/` into a single `/`. */
  function Collapse(s: string): (r: string)
    ensures |r| <= |s| && (|s| == 0 <==> |r| == 0)
    ensures |s| > 0 ==> r[0] == s[0] && r[|r| - 1] == s[|s| - 1]
    ensures NoDoubleSlash(r)
    ensures NonSlash(r) == NonSlash(s)
  {
    if |s| <= 1 then s
    else if s[|s| - 1] == '/' && s[|s| - 2] == '/' then
      var r := Collapse(s[..|s| - 1]);
      assert s[..|s| - 1][..|s| - 2] == s[..|s| - 2];
      r
    else
      var p := Collapse(s[..|s| - 1]);
      var r := p + [s[|s| - 1]];
      assert r[..|r| - 1] == p;
      r
  }

  /** Collapsing keeps every name, in order. */
  lemma {:induction false} CollapseNames(s: string)
    ensures Names(Collapse(s)) == Names(s)
  {
    if |s| > 1 {
      var p := s[..|s| - 1];
      CollapseNames(p);
      if !(s[|s| - 1] == '/' && s[|s| - 2] == '/') {
        var q := Collapse(p);
        var r := q + [s[|s| - 1]];
        assert r[..|r| - 1] == q && r[|r| - 1] == s[|s| - 1];
        assert q[|q| - 1] == p[|p| - 1];
      }
    }
  }

  /** The path string `Paths.get` keeps for a NUL-free input. */
  function Normalize(s: string): (r: string)
    ensures NoDoubleSlash(r)
    ensures |r| > 1 ==> r[|r| - 1] != '/'
    ensures |r| == 0 <==> |s| == 0
    ensures IsAbsolute(r) <==> IsAbsolute(s)
    ensures Names(r) == Names(s)
    ensures NonSlash(r) == NonSlash(s)
  {
    var t := Collapse(s);
    CollapseNames(s);
    if |t| > 1 && t[|t| - 1] == '/' then
      var r := t[..|t| - 1];
      assert NonSlash(t) == NonSlash(r) && Names(t) == Names(r);
      r
    else t
  }

  /** `Paths.get(s)`; `None` stands for `InvalidPathException`. */
  function GetPath(s: string): (r: Option<string>)
    ensures r.Some? <==> '\0' !in s
    ensures r.Some? ==> Names(r.value) == Names(s) && (IsAbsolute(r.value) <==> IsAbsolute(s))
    ensures r.Some? ==> NoDoubleSlash(r.value) && (|r.value| > 1 ==> r.value[|r.value| - 1] != '/')
  {
    if '\0' in s then None else Some(Normalize(s))
  }

  lemma {:induction false} CollapseKeepsNormal(s: string)
    requires NoDoubleSlash(s)
    ensures Collapse(s) == s
  {
    if |s| > 1 {
      var p := s[..|s| - 1];
      assert NoDoubleSlash(p) by {
        forall i | 0 <= i < |p| - 1
          ensures !(p[i] == '/' && p[i + 1] == '/')
        {
          assert p[i] == s[i] && p[i + 1] == s[i + 1];
        }
      }
      CollapseKeepsNormal(p);
      assert s == p + [s[|s| - 1]];
    }
  }

  /** Parsing an already parsed path gives it back unchanged. */
  lemma NormalizeIdempotent(s: string)
    ensures Normalize(Normalize(s)) == Normalize(s)
  {
    CollapseKeepsNormal(Normalize(s));
  }

  /** A file name without any `/` is kept verbatim. */
  lemma {:induction false} NormalizeSlashFree(s: string)
    requires '/' !in s
    ensures Normalize(s) == s
  {
    assert NoDoubleSlash(s);
    CollapseKeepsNormal(s);
  }

  /** Known answers: separators are collapsed, a trailing one is dropped,
      and the root and a leading `/` are kept. */
  lemma NormalizeExamples()
    ensures Normalize("a//b/") == "a/b"
    ensures Normalize("///") == "/"
    ensures Normalize("/a") == "/a"
  {
    CollapseExamples();
    assert "a/b/"[..3] == "a/b";
    assert "/a"[..1] == "/";
  }

  lemma CollapseExamples()
    ensures Collapse("a//b/") == "a/b/" && Collapse("///") == "/"
  {
    CollapseMixed();
    assert "//"[..1] == "/" && "///"[..2] == "//";
    assert Collapse("//") == "/";
  }

  lemma CollapseMixed()
    ensures Collapse("a//b/") == "a/b/"
  {
    assert "a//"[..2] == "a/" && "a/"[..1] == "a";
    assert Collapse("a//") == "a/";
    assert "a//b"[..3] == "a//" && "a/" + "b" == "a/b";
    assert Collapse("a//b") == "a/b";
    assert "a//b/"[..4] == "a//b" && "a/b" + "/" == "a/b/";
  }
}
