/**
 The background script's URL normalisation, used only to compare a widget's
 source with the URL a frame navigated to: cut at the first `?`, then drop at
 most one trailing `/`.
 */
module Url {
  import opened Base

  /** Index of the first `?`, or the length when there is none (`split("?")[0]`). */
  function QueryStart(u: string): (q: nat)
    ensures q <= |u|
    ensures forall i :: 0 <= i < q ==> u[i] != '?'
    ensures q < |u| ==> u[q] == '?'
  {
    if u == [] || u[0] == '?' then 0 else 1 + QueryStart(u[1..])
  }

  /** True when `s` ends with a `/`. */
  predicate EndsWithSlash(s: string) {
    s != [] && s[|s| - 1] == '/'
  }

  /**
   The normalised URL is a query-free prefix of the input; what follows it in
   the input is nothing or the query, possibly preceded by the one `/` that was
   stripped; and when nothing was stripped it does not end with `/`.
   */
  function Normalize(u: string): (r: string)
    ensures StartsWith(u, r)
    ensures forall i :: 0 <= i < |r| ==> r[i] != '?'
    ensures var rest := u[|r|..];
      || rest == []
      || rest[0] == '?'
      || (rest[0] == '/' && (|rest| == 1 || rest[1] == '?'))
    ensures var rest := u[|r|..];
      (rest == [] || rest[0] == '?') ==> !EndsWithSlash(r)
  {
    var base := u[..QueryStart(u)];
    if EndsWithSlash(base) then base[..|base| - 1] else base
  }

  /** The query string never matters: appending one to a query-free URL changes nothing. */
  lemma NormalizeIgnoresQuery(u: string, query: string)
    requires forall i :: 0 <= i < |u| ==> u[i] != '?'
    ensures Normalize(u + "?" + query) == Normalize(u)
  {
    var v := u + "?" + query;
    QueryStartAt(v, |u|);
    QueryStartAt(u, |u|);
    assert v[..|u|] == u;
  }

  /** `QueryStart` is the position of the first `?`. */
  lemma QueryStartAt(u: string, q: nat)
    requires q <= |u|
    requires forall i :: 0 <= i < q ==> u[i] != '?'
    requires q < |u| ==> u[q] == '?'
    ensures QueryStart(u) == q
  {
  }

  /** Exactly one trailing slash is removed from a query-free URL. */
  lemma NormalizeStripsOneSlash(u: string)
    requires forall i :: 0 <= i < |u| ==> u[i] != '?'
    ensures Normalize(u + "/") == u
  {
    var v := u + "/";
    QueryStartAt(v, |v|);
    assert v[..|v|] == v;
    assert v[..|v| - 1] == u;
  }

  /** Normalising twice equals normalising once exactly when the first result does not end with `/`. */
  lemma NormalizeIdempotentIff(u: string)
    ensures Normalize(Normalize(u)) == Normalize(u) <==> !EndsWithSlash(Normalize(u))
  {
    var r := Normalize(u);
    QueryStartAt(r, |r|);
    assert r[..|r|] == r;
    if EndsWithSlash(r) {
      assert |Normalize(r)| == |r| - 1;
    }
  }

  /** A URL ending in `//` loses only one slash, so normalisation is not idempotent on it. */
  lemma NormalizeNotIdempotent()
    ensures Normalize("a//") == "a/"
    ensures Normalize(Normalize("a//")) == "a"
  {
    QueryStartAt("a//", 3);
    assert "a//"[..3] == "a//";
    assert "a//"[..2] == "a/";
    QueryStartAt("a/", 2);
    assert "a/"[..2] == "a/";
    assert "a/"[..1] == "a";
  }

  /** A clean URL is its own normal form, and so is it with a slash and a query appended. */
  lemma NormalizeClean(u: string, query: string)
    requires forall i :: 0 <= i < |u| ==> u[i] != '?'
    requires !EndsWithSlash(u)
    ensures Normalize(u) == u
    ensures Normalize(u + "/?" + query) == u
  {
    QueryStartAt(u, |u|);
    assert u[..|u|] == u;
    var v := u + "/?" + query;
    QueryStartAt(v, |u| + 1);
    assert v[..|u| + 1] == u + "/";
  }

  /** The worked example: a trailing slash and a query string both disappear. */
  lemma NormalizeExample(withQuery: string, plain: string)
    requires withQuery == "https://a.com/path/?x=1" && plain == "https://a.com/path"
    ensures Normalize(withQuery) == plain
    ensures Normalize(plain) == plain
  {
    assert forall i :: 0 <= i < |plain| ==> plain[i] != '?';
    NormalizeClean(plain, "x=1");
    assert plain + "/?" + "x=1" == withQuery;
  }
}
