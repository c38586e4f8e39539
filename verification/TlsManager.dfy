/** pingoo/tls/tls_manager.rs: the certificate index and what it answers a client hello. */
module TlsManager {
  import opened Wrappers

  /** `wildcards` are the names with an asterisk, `hostnames` the others. */
  datatype Certificate = Certificate(key: string, hostnames: seq<string>, wildcards: seq<string>)

  /** `certificates` by exact name, and the certificates that have wildcards in load order. */
  datatype Index = Index(certificates: map<string, Certificate>, wildcards: seq<Certificate>)

  /** Whether a pattern matches a name: the matcher itself is not part of this model. */
  type Matcher = (string, string) -> bool

  predicate AnyMatches(m: Matcher, cert: Certificate, sni: string) {
    exists w :: w in cert.wildcards && m(w, sni)
  }

  /** Loads the certificates in directory order; the first that cannot be read ends it. */
  method LoadCertificates(files: seq<Result<Certificate, string>>) returns (r: Result<Index, string>)
    ensures r.Ok? <==> forall i :: 0 <= i < |files| ==> files[i].Ok?
    ensures r.Ok? ==> Indexes(Loaded(files), r.value)
    ensures r.Err? ==>
              exists i :: 0 <= i < |files| && files[i] == Err(r.error) && forall j :: 0 <= j < i ==> files[j].Ok?
  {
    var certificates: map<string, Certificate> := map[];
    var wildcards: seq<Certificate> := [];
    var i := 0;
    while i < |files|
      invariant 0 <= i <= |files|
      invariant forall j :: 0 <= j < i ==> files[j].Ok?
      invariant Indexes(Loaded(files[..i]), Index(certificates, wildcards))
    {
      if files[i].Err? {
        return Err(files[i].error);
      }
      var cert := files[i].value;
      LoadedSnoc(files, i);
      ghost var loaded := Loaded(files[..i]);
      ghost var before := certificates;
      var h := 0;
      while h < |cert.hostnames|
        invariant 0 <= h <= |cert.hostnames|
        invariant forall name :: name in certificates <==> name in before || name in cert.hostnames[..h]
        invariant forall name :: name in certificates ==>
                    certificates[name] == if name in cert.hostnames[..h] then cert else before[name]
      {
        certificates := certificates[cert.hostnames[h] := cert];
        assert cert.hostnames[..h + 1] == cert.hostnames[..h] + [cert.hostnames[h]];
        h := h + 1;
      }
      assert cert.hostnames[..h] == cert.hostnames;
      IndexSnoc(loaded, cert, Index(before, wildcards), certificates);
      if |cert.wildcards| != 0 {
        wildcards := wildcards + [cert];
      }
      i := i + 1;
    }
    assert files[..i] == files;
    return Ok(Index(certificates, wildcards));
  }

  /** The certificates read before the first failure. */
  function Loaded(files: seq<Result<Certificate, string>>): seq<Certificate> {
    if files == [] || files[0].Err? then [] else [files[0].value] + Loaded(files[1..])
  }

  lemma {:induction false} LoadedSnoc(files: seq<Result<Certificate, string>>, i: nat)
    requires i < |files| && forall j :: 0 <= j <= i ==> files[j].Ok?
    ensures Loaded(files[..i + 1]) == Loaded(files[..i]) + [files[i].value]
  {
    if i > 0 {
      LoadedSnoc(files[1..], i - 1);
      assert files[1..][..i] == files[..i + 1][1..] && files[1..][..i - 1] == files[..i][1..];
    } else {
      assert files[..1][1..] == [];
    }
  }

  /** The last certificate loaded that lists a name. */
  function LastListing(certs: seq<Certificate>, name: string): Option<Certificate> {
    if certs == [] then None
    else if name in certs[|certs| - 1].hostnames then Some(certs[|certs| - 1])
    else LastListing(certs[..|certs| - 1], name)
  }

  function WithWildcards(certs: seq<Certificate>): seq<Certificate> {
    if certs == [] then []
    else WithWildcards(certs[..|certs| - 1]) + if |certs[|certs| - 1].wildcards| != 0 then [certs[|certs| - 1]] else []
  }

  ghost predicate Indexes(certs: seq<Certificate>, index: Index) {
    && (forall name ::
          (if name in index.certificates then Some(index.certificates[name]) else None) == LastListing(certs, name))
    && index.wildcards == WithWildcards(certs)
  }

  lemma IndexSnoc(certs: seq<Certificate>, cert: Certificate, index: Index, certificates: map<string, Certificate>)
    requires Indexes(certs, index)
    requires forall name :: name in certificates <==> name in index.certificates || name in cert.hostnames
    requires forall name :: name in certificates ==>
             certificates[name] == if name in cert.hostnames then cert else index.certificates[name]
    ensures Indexes(certs + [cert], Index(certificates, index.wildcards + if |cert.wildcards| != 0 then [cert] else []))
  {
    assert (certs + [cert])[..|certs|] == certs;
  }

  function FirstMatch(m: Matcher, certs: seq<Certificate>, sni: string): Option<Certificate> {
    if certs == [] then None
    else if AnyMatches(m, certs[0], sni) then Some(certs[0])
    else FirstMatch(m, certs[1..], sni)
  }

  /** `resolve`: an exact name, else a wildcard, else the default.  A hello without a name
      asks for the empty one. */
  function Resolve(index: Index, fallback: Certificate, m: Matcher, sni: Option<string>): Certificate {
    var name := if sni.Some? then sni.value else "";
    if name in index.certificates then index.certificates[name]
    else
      var found := FirstMatch(m, index.wildcards, name);
      if found.Some? then found.value else fallback
  }

  // The index answers as a scan of the certificates would

  /** Certificate `i` lists the name and no later one does. */
  predicate IsLastListing(certs: seq<Certificate>, name: string, i: nat) {
    i < |certs| && name in certs[i].hostnames && forall j :: i < j < |certs| ==> name !in certs[j].hostnames
  }

  predicate Unlisted(certs: seq<Certificate>, name: string) {
    forall i :: 0 <= i < |certs| ==> name !in certs[i].hostnames
  }

  /** Certificate `i` is the first with a wildcard that matches the name. */
  predicate IsFirstMatch(m: Matcher, certs: seq<Certificate>, name: string, i: nat) {
    i < |certs| && AnyMatches(m, certs[i], name) && forall j :: 0 <= j < i ==> !AnyMatches(m, certs[j], name)
  }

  predicate Unmatched(m: Matcher, certs: seq<Certificate>, name: string) {
    forall i :: 0 <= i < |certs| ==> !AnyMatches(m, certs[i], name)
  }

  lemma {:induction false} LastListingScans(certs: seq<Certificate>, name: string)
    ensures LastListing(certs, name) == None <==> Unlisted(certs, name)
    ensures forall i: nat :: IsLastListing(certs, name, i) ==> LastListing(certs, name) == Some(certs[i])
  {
    if certs != [] {
      var n := |certs| - 1;
      LastListingScans(certs[..n], name);
      assert Unlisted(certs, name) <==> Unlisted(certs[..n], name) && name !in certs[n].hostnames;
      forall i: nat | IsLastListing(certs, name, i) ensures LastListing(certs, name) == Some(certs[i]) {
        assert i < n ==> IsLastListing(certs[..n], name, i);
      }
    }
  }

  lemma {:induction false} FirstMatchAppend(m: Matcher, a: seq<Certificate>, b: seq<Certificate>, name: string)
    ensures FirstMatch(m, a + b, name)
         == if FirstMatch(m, a, name).Some? then FirstMatch(m, a, name) else FirstMatch(m, b, name)
  {
    if a == [] {
      assert a + b == b;
    } else {
      FirstMatchAppend(m, a[1..], b, name);
      assert (a + b)[1..] == a[1..] + b;
    }
  }

  lemma FirstMatchSnoc(m: Matcher, certs: seq<Certificate>, cert: Certificate, name: string)
    ensures FirstMatch(m, WithWildcards(certs + [cert]), name)
         == if FirstMatch(m, WithWildcards(certs), name).Some? then FirstMatch(m, WithWildcards(certs), name)
            else if AnyMatches(m, cert, name) then Some(cert) else None
  {
    assert (certs + [cert])[..|certs|] == certs;
    var last := if |cert.wildcards| != 0 then [cert] else [];
    FirstMatchAppend(m, WithWildcards(certs), last, name);
    assert last != [] ==> last[1..] == [];
  }

  lemma {:induction false} FirstMatchScans(m: Matcher, certs: seq<Certificate>, name: string)
    ensures FirstMatch(m, WithWildcards(certs), name) == None <==> Unmatched(m, certs, name)
    ensures forall i: nat :: IsFirstMatch(m, certs, name, i) ==>
            FirstMatch(m, WithWildcards(certs), name) == Some(certs[i])
  {
    if certs != [] {
      hide WithWildcards, FirstMatch, AnyMatches;
      var n := |certs| - 1;
      FirstMatchScans(m, certs[..n], name);
      FirstMatchSnoc(m, certs[..n], certs[n], name);
      assert certs[..n] + [certs[n]] == certs;
      assert Unmatched(m, certs, name) <==> Unmatched(m, certs[..n], name) && !AnyMatches(m, certs[n], name);
      forall i: nat | IsFirstMatch(m, certs, name, i)
        ensures FirstMatch(m, WithWildcards(certs), name) == Some(certs[i])
      {
        if i < n {
          assert IsFirstMatch(m, certs[..n], name, i);
        } else {
          assert Unmatched(m, certs[..n], name);
        }
      }
    }
  }

  /** What `Resolve` serves over the index of `certs`, in terms of `certs` alone. */
  lemma ResolveScans(certs: seq<Certificate>, index: Index, fallback: Certificate, m: Matcher, name: string)
    requires Indexes(certs, index)
    ensures forall i: nat :: IsLastListing(certs, name, i) ==> Resolve(index, fallback, m, Some(name)) == certs[i]
    ensures forall i: nat :: Unlisted(certs, name) && IsFirstMatch(m, certs, name, i) ==>
              Resolve(index, fallback, m, Some(name)) == certs[i]
    ensures Unlisted(certs, name) && Unmatched(m, certs, name) ==> Resolve(index, fallback, m, Some(name)) == fallback
  {
    LastListingScans(certs, name);
    FirstMatchScans(m, certs, name);
  }

  /** A hello without a name is answered as if it asked for the empty one. */
  lemma NoNameScans(certs: seq<Certificate>, index: Index, fallback: Certificate, m: Matcher)
    requires Indexes(certs, index)
    ensures forall i: nat :: IsLastListing(certs, "", i) ==> Resolve(index, fallback, m, None) == certs[i]
    ensures forall i: nat :: Unlisted(certs, "") && IsFirstMatch(m, certs, "", i) ==>
              Resolve(index, fallback, m, None) == certs[i]
    ensures Unlisted(certs, "") && Unmatched(m, certs, "") ==> Resolve(index, fallback, m, None) == fallback
  {
    ResolveScans(certs, index, fallback, m, "");
  }

  /** Every name a loaded certificate lists is served by a certificate that lists it. */
  lemma ListedNamesAreServed(certs: seq<Certificate>, index: Index, fallback: Certificate, m: Matcher, name: string)
    requires Indexes(certs, index) && !Unlisted(certs, name)
    ensures Resolve(index, fallback, m, Some(name)) in certs
            && name in Resolve(index, fallback, m, Some(name)).hostnames
  {
    var i := LastIndex(certs, name);
    ResolveScans(certs, index, fallback, m, name);
  }

  lemma LastIndex(certs: seq<Certificate>, name: string) returns (i: nat)
    requires !Unlisted(certs, name)
    ensures IsLastListing(certs, name, i)
  {
    var n := |certs| - 1;
    if name in certs[n].hostnames {
      i := n;
    } else {
      assert !Unlisted(certs[..n], name) by {
        var j :| 0 <= j < |certs| && name in certs[j].hostnames;
        assert certs[..n][j] == certs[j];
      }
      i := LastIndex(certs[..n], name);
    }
  }

  // Which files are loaded

  function LastDot(s: string): int
    ensures -1 <= LastDot(s) < |s|
    ensures LastDot(s) >= 0 ==> '.' in s
  {
    if s == "" then -1 else if s[|s| - 1] == '.' then |s| - 1 else LastDot(s[..|s| - 1])
  }

  /** The part of a file name after its last dot, unless that dot comes first. */
  function Extension(fileName: string): string {
    if LastDot(fileName) <= 0 then "" else fileName[LastDot(fileName) + 1..]
  }

  predicate IsCertificateFile(fileName: string) { Extension(fileName) == "pem" && fileName != "default" }

  /** Certificates are the files whose name ends in ".pem" and has something before it. */
  lemma CertificateFileExactlyWhen(fileName: string)
    ensures IsCertificateFile(fileName) <==>
              |fileName| > 4 && fileName[|fileName| - 4..] == ".pem"
  {
    var n := |fileName| - 4;
    LastDotIs(fileName);
    if n > 0 && fileName[n..] == ".pem" {
      assert fileName[n] == '.' && fileName[n + 1] == 'p' && fileName[n + 2] == 'e' && fileName[n + 3] == 'm';
      assert LastDot(fileName) == n;
      assert fileName[n + 1..] == "pem";
      assert '.' !in "default";
    }
    if IsCertificateFile(fileName) {
      var d := LastDot(fileName);
      assert |fileName[d + 1..]| == 3;
      assert fileName[d..] == "." + fileName[d + 1..];
    }
  }

  lemma {:induction false} LastDotIs(s: string)
    ensures LastDot(s) >= 0 ==> s[LastDot(s)] == '.'
    ensures forall i :: LastDot(s) < i < |s| ==> s[i] != '.'
  {
    if s != "" && s[|s| - 1] != '.' {
      LastDotIs(s[..|s| - 1]);
    }
  }

  /** The second half of the test excludes no file, the default certificate's included. */
  lemma DefaultIsNotExcluded(fileName: string)
    ensures IsCertificateFile(fileName) <==> Extension(fileName) == "pem"
    ensures IsCertificateFile("default.pem")
  {
    assert '.' !in "default";
    var s := "default.pem";
    assert s[..10] == "default.pe" && s[..9] == "default.p" && s[..8] == "default.";
    assert s[..10][..9] == s[..9] && s[..9][..8] == s[..8];
    assert LastDot(s[..8]) == 7;
    assert LastDot(s[..9]) == 7;
    assert LastDot(s[..10]) == 7;
    assert s[8..] == "pem";
  }

  /** For a name nobody lists, a certificate is served exactly when it is the first that
      matches, or is the default and none does. */
  lemma WildcardServedExactlyWhen(certs: seq<Certificate>, index: Index, fallback: Certificate, m: Matcher,
                                  name: string, cert: Certificate)
    requires Indexes(certs, index) && Unlisted(certs, name)
    ensures Resolve(index, fallback, m, Some(name)) == cert <==>
      || (exists i: nat :: IsFirstMatch(m, certs, name, i) && certs[i] == cert)
      || (Unmatched(m, certs, name) && cert == fallback)
  {
    ResolveScans(certs, index, fallback, m, name);
    if !Unmatched(m, certs, name) {
      var first := FirstIndex(m, certs, name);
      OneFirstMatch(m, certs, name, first);
    }
  }

  lemma OneFirstMatch(m: Matcher, certs: seq<Certificate>, name: string, first: nat)
    requires IsFirstMatch(m, certs, name, first)
    ensures forall i: nat :: IsFirstMatch(m, certs, name, i) ==> i == first
  {
  }

  /** What a default certificate is checked for: no exact name and the pattern "*" alone. */
  predicate IsDefault(cert: Certificate) { cert.hostnames == [] && cert.wildcards == ["*"] }

  /** The default certificate is loaded with the others.  A certificate that has wildcards
      only, and comes after it for the first time, is then served for no name at all. */
  lemma NothingServedAfterDefault(certs: seq<Certificate>, index: Index, fallback: Certificate, m: Matcher,
                                  name: string, d: nat, i: nat)
    requires Indexes(certs, index) && d < i < |certs| && IsDefault(fallback) && certs[d] == fallback
    requires forall n :: m("*", n)
    requires certs[i].hostnames == [] && certs[i] !in certs[..d + 1]
    ensures Resolve(index, fallback, m, Some(name)) != certs[i]
  {
    if Unlisted(certs, name) {
      WildcardServedExactlyWhen(certs, index, fallback, m, name, certs[i]);
      assert "*" in certs[d].wildcards && AnyMatches(m, certs[d], name);
      assert forall j: nat :: IsFirstMatch(m, certs, name, j) ==> j <= d && certs[j] == certs[..d + 1][j];
    } else {
      ListedNamesAreServed(certs, index, fallback, m, name);
    }
  }

  lemma FirstIndex(m: Matcher, certs: seq<Certificate>, name: string) returns (i: nat)
    requires !Unmatched(m, certs, name)
    ensures IsFirstMatch(m, certs, name, i)
  {
    if AnyMatches(m, certs[0], name) {
      i := 0;
    } else {
      assert !Unmatched(m, certs[1..], name) by {
        var j :| 0 <= j < |certs| && AnyMatches(m, certs[j], name);
        assert certs[1..][j - 1] == certs[j];
      }
      var k := FirstIndex(m, certs[1..], name);
      i := k + 1;
      forall j | 0 <= j < i ensures !AnyMatches(m, certs[j], name) {
        assert j > 0 ==> certs[j] == certs[1..][j - 1];
      }
    }
  }
}
