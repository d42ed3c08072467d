/**
 * normalizeCzURL: turn what the user typed into the host of a second-level
 * .cz domain.  The host extraction of url.Parse is approximated: the host is
 * the text after "http://" up to the first '/', '?' or '#', and the only
 * parse error modelled is a control byte before the fragment.
 */
module Normalize {
  import opened Wrappers
  import opened Bytes
  import opened Errors

  const Scheme: Text := "http://"
  const CzSuffix: Text := ".cz"

  const Delimiters: set<Byte> := {'/', '?', '#'}

  /** An ASCII control byte, which url.Parse refuses outside the fragment. */
  predicate IsControl(c: Byte) {
    c < ' ' || c == '\U{7F}'
  }

  predicate NoControl(s: Text) {
    forall i | 0 <= i < |s| :: !IsControl(s[i])
  }

  /** Newline and tab are control bytes. */
  lemma NoControlNoBreak(s: Text)
    requires NoControl(s)
    ensures '\n' !in s && '\t' !in s
  {
    forall i | 0 <= i < |s|
      ensures s[i] != '\n' && s[i] != '\t'
    {
      assert !IsControl(s[i]);
    }
  }

  /** The authority of a "http://" address: everything up to the first delimiter. */
  function HostPart(rest: Text): Text {
    if rest == [] || rest[0] in Delimiters then []
    else [rest[0]] + HostPart(rest[1..])
  }

  /** The host is the longest prefix free of delimiters. */
  lemma {:induction false} HostPartIsLongestPrefix(rest: Text)
    ensures var h := HostPart(rest);
            |h| <= |rest| && h == rest[..|h|] && Avoids(h, Delimiters)
            && (|h| < |rest| ==> rest[|h|] in Delimiters)
  {
    if rest != [] && rest[0] !in Delimiters {
      HostPartIsLongestPrefix(rest[1..]);
    }
  }

  lemma HostPartOfHost(s: Text)
    requires Avoids(s, Delimiters)
    ensures HostPart(s) == s
  {
    HostPartIsLongestPrefix(s);
  }

  /** A host followed by a path, query or fragment parses to that host. */
  lemma {:induction false} HostPartStopsAtDelimiter(s: Text, t: Text)
    requires Avoids(s, Delimiters) && (t == [] || t[0] in Delimiters)
    ensures HostPart(s + t) == s
  {
    if s == [] {
      assert s + t == t;
    } else {
      assert (s + t)[0] == s[0];
      assert (s + t)[1..] == s[1..] + t;
      assert Avoids(s[1..], Delimiters) by {
        forall i | 0 <= i < |s[1..]|
          ensures s[1..][i] !in Delimiters
        {
          assert s[1..][i] == s[i + 1];
        }
      }
      HostPartStopsAtDelimiter(s[1..], t);
    }
  }

  /** url.Parse first cuts the address at its first '#' and checks only the part before it. */
  function BeforeFragment(u: Text): Text {
    if u == [] || u[0] == '#' then [] else [u[0]] + BeforeFragment(u[1..])
  }

  /** The part before the fragment is the longest prefix without '#'. */
  lemma {:induction false} BeforeFragmentIsPrefix(u: Text)
    ensures var b := BeforeFragment(u);
            |b| <= |u| && b == u[..|b|] && '#' !in b && (|b| < |u| ==> u[|b|] == '#')
  {
    if u != [] && u[0] != '#' {
      BeforeFragmentIsPrefix(u[1..]);
      var b := BeforeFragment(u[1..]);
      assert [u[0]] + b == u[..|b| + 1];
    }
  }

  /** Bytes before the first '#' all lie before the fragment. */
  lemma {:induction false} BeforeFragmentCovers(u: Text, n: nat)
    requires n <= |u| && forall m | 0 <= m < n :: u[m] != '#'
    ensures n <= |BeforeFragment(u)| && BeforeFragment(u)[..n] == u[..n]
  {
    if n > 0 {
      BeforeFragmentCovers(u[1..], n - 1);
      var b := BeforeFragment(u[1..]);
      assert BeforeFragment(u) == [u[0]] + b;
      assert ([u[0]] + b)[..n] == [u[0]] + b[..n - 1];
      assert u[..n] == [u[0]] + u[1..][..n - 1];
    }
  }

  /** A prefix without '#' is kept whole before the fragment. */
  lemma {:induction false} BeforeFragmentAppend(a: Text, t: Text)
    requires '#' !in a
    ensures BeforeFragment(a + t) == a + BeforeFragment(t)
  {
    if a == [] {
      assert a + t == t;
    } else {
      assert (a + t)[0] == a[0];
      assert (a + t)[1..] == a[1..] + t;
      BeforeFragmentAppend(a[1..], t);
      assert [a[0]] + (a[1..] + BeforeFragment(t)) == a + BeforeFragment(t);
    }
  }

  lemma NoControlBeforeFragment(u: Text)
    requires NoControl(u)
    ensures NoControl(BeforeFragment(u))
  {
    BeforeFragmentIsPrefix(u);
    var b := BeforeFragment(u);
    forall i | 0 <= i < |b|
      ensures !IsControl(b[i])
    {
      assert b[i] == u[i];
    }
  }

  /**
   * The part of url.Parse the checker uses: the Host of an address that
   * starts with "http://", or the error for a control byte before the fragment.
   */
  function ParseHost(u: Text): Result<Text, Error>
    requires HasPrefix(u, Scheme)
  {
    if NoControl(BeforeFragment(u)) then Success(HostPart(u[|Scheme|..])) else Failure(InvalidURL)
  }

  /**
   * A clean host followed by a path, query or fragment is the Host of the
   * address, whatever control bytes the fragment holds.
   */
  lemma ParseHostCuts(host: Text, rest: Text)
    requires Avoids(host, Delimiters) && NoControl(host)
    requires (rest == [] || rest[0] in Delimiters) && NoControl(BeforeFragment(rest))
    ensures ParseHost(Scheme + (host + rest)) == Success(host)
  {
    var a := Scheme + host;
    var u := Scheme + (host + rest);
    assert u == a + rest;
    assert '#' !in a by {
      forall i | 0 <= i < |a|
        ensures a[i] != '#'
      {
        if i >= |Scheme| {
          assert a[i] == host[i - |Scheme|];
        }
      }
    }
    BeforeFragmentAppend(a, rest);
    NoControlAppend(Scheme, host);
    NoControlAppend(a, BeforeFragment(rest));
    assert u[|Scheme|..] == host + rest;
    HostPartStopsAtDelimiter(host, rest);
  }

  /** Step one: prepend "http://" unless it is already there. */
  function WithScheme(s: Text): (u: Text)
    ensures HasPrefix(u, Scheme)
    ensures u == s <==> HasPrefix(s, Scheme)
    ensures u != s ==> u == Scheme + s
  {
    if HasPrefix(s, Scheme) then s else Scheme + s
  }

  /** Step two: append ".cz" unless it is already there. */
  function WithSuffix(s: Text): (u: Text)
    ensures HasSuffix(u, CzSuffix)
    ensures u == s <==> HasSuffix(s, CzSuffix)
    ensures u != s ==> u == s + CzSuffix
    ensures HasPrefix(s, Scheme) ==> HasPrefix(u, Scheme)
  {
    if HasSuffix(s, CzSuffix) then s else s + CzSuffix
  }

  /** The address normalizeCzURL hands to url.Parse. */
  function Address(s: Text): (u: Text)
    ensures HasPrefix(u, Scheme) && HasSuffix(u, CzSuffix)
  {
    WithSuffix(WithScheme(s))
  }

  /** What normalizeCzURL returns for `s`. */
  function NormalizedHost(s: Text): Result<Text, Error> {
    match ParseHost(Address(s))
    case Failure(e) => Failure(e)
    case Success(host) => if Count(host, '.') > 1 then Failure(NotSecondLevel) else Success(host)
  }

  /** normalizeCzURL, updating the address one step at a time as the source does. */
  method NormalizeCzURL(urlAddr: Text) returns (r: Result<Text, Error>)
    ensures r == NormalizedHost(urlAddr)
  {
    var u := urlAddr;
    if !HasPrefix(u, Scheme) {
      u := Scheme + u;
    }
    if !HasSuffix(u, CzSuffix) {
      u := u + CzSuffix;
    }
    var parsed := ParseHost(u);
    if parsed.Failure? {
      return Failure(parsed.error);
    }
    if Count(parsed.value, '.') > 1 {
      return Failure(NotSecondLevel);
    }
    return Success(parsed.value);
  }

  /** A normalised host has at most one dot, no URL delimiter and no control byte. */
  lemma NormalizedIsSecondLevel(s: Text)
    requires NormalizedHost(s).Success?
    ensures Count(NormalizedHost(s).value, '.') <= 1
    ensures Avoids(NormalizedHost(s).value, Delimiters)
    ensures NoControl(NormalizedHost(s).value)
  {
    var u := Address(s);
    var h := NormalizedHost(s).value;
    assert h == HostPart(u[|Scheme|..]);
    HostPartIsLongestPrefix(u[|Scheme|..]);
    HostBeforeFragment(u);
    var b := BeforeFragment(u);
    forall i | 0 <= i < |h|
      ensures !IsControl(h[i])
    {
      assert h[i] == b[|Scheme|..|Scheme| + |h|][i] == b[|Scheme| + i];
    }
  }

  /** The host lies wholly before the fragment, so url.Parse checks all of its bytes. */
  lemma HostBeforeFragment(u: Text)
    requires HasPrefix(u, Scheme)
    ensures var h := HostPart(u[|Scheme|..]);
            |Scheme| + |h| <= |BeforeFragment(u)| && BeforeFragment(u)[|Scheme|..|Scheme| + |h|] == h
  {
    var rest := u[|Scheme|..];
    var h := HostPart(rest);
    HostPartIsLongestPrefix(rest);
    forall m | 0 <= m < |Scheme| + |h|
      ensures u[m] != '#'
    {
      if m < |Scheme| {
        assert u[m] == u[..|Scheme|][m] == Scheme[m];
      } else {
        assert u[m] == rest[m - |Scheme|] == rest[..|h|][m - |Scheme|] == h[m - |Scheme|];
        assert h[m - |Scheme|] !in Delimiters;
      }
    }
    BeforeFragmentCovers(u, |Scheme| + |h|);
    var b := BeforeFragment(u);
    assert b[|Scheme|..|Scheme| + |h|] == b[..|Scheme| + |h|][|Scheme|..] == u[..|Scheme| + |h|][|Scheme|..];
    assert u[..|Scheme| + |h|][|Scheme|..] == rest[..|h|];
  }

  /** Normalisation fails as "not second-level" exactly when the parsed host has two or more dots. */
  lemma SecondLevelRule(s: Text)
    ensures NormalizedHost(s) == Failure(NotSecondLevel) <==>
            ParseHost(Address(s)).Success? && Count(ParseHost(Address(s)).value, '.') >= 2
  {
  }

  /** A text with no '/' cannot start with "http://". */
  lemma NoSlashNoScheme(s: Text)
    requires '/' !in s
    ensures !HasPrefix(s, Scheme)
  {
    if |s| >= |Scheme| {
      assert s[..|Scheme|][5] == s[5] != Scheme[5];
    }
  }

  /**
   * A host without delimiters or control bytes that ends in ".cz" is what
   * url.Parse returns for it, with or without "http://" before it.
   */
  lemma HostParsesToItself(h: Text)
    requires Avoids(h, Delimiters) && NoControl(h) && HasSuffix(h, CzSuffix)
    ensures ParseHost(Address(h)) == Success(h)
    ensures ParseHost(Address(Scheme + h)) == Success(h)
  {
    NoSlashNoScheme(h);
    var u := Scheme + h;
    assert Address(h) == u;
    assert HasSuffix(u, CzSuffix) by {
      assert u[|u| - |CzSuffix|..] == h[|h| - |CzSuffix|..];
    }
    assert Address(u) == u;
    assert NoControl(u) by {
      forall i | 0 <= i < |u|
        ensures !IsControl(u[i])
      {
        if i >= |Scheme| {
          assert u[i] == h[i - |Scheme|];
        }
      }
    }
    NoControlBeforeFragment(u);
    assert u[|Scheme|..] == h;
    HostPartOfHost(h);
  }

  /**
   * A host that normalisation produced and that ends in ".cz" is a fixed
   * point: normalising it again gives it back unchanged.
   */
  lemma NormalizeIdempotentOnCz(s: Text)
    requires NormalizedHost(s).Success?
    requires HasSuffix(NormalizedHost(s).value, CzSuffix)
    ensures NormalizedHost(NormalizedHost(s).value) == NormalizedHost(s)
  {
    NormalizedIsSecondLevel(s);
    HostParsesToItself(NormalizedHost(s).value);
  }

  /** "http://" followed by a text that does not end in ".cz" does not end in ".cz" either. */
  lemma SchemeKeepsNoSuffix(h: Text)
    requires !HasSuffix(h, CzSuffix)
    ensures !HasSuffix(Scheme + h, CzSuffix)
  {
    var u := Scheme + h;
    if |h| >= |CzSuffix| {
      assert u[|u| - |CzSuffix|..] == h[|h| - |CzSuffix|..];
    } else {
      assert u[|u| - |CzSuffix|..][0] == Scheme[4 + |h|] != '.';
    }
  }

  /**
   * A normalised host that does not end in ".cz" is no fixed point:
   * normalising it again appends ".cz", or refuses the longer name.
   */
  lemma NormalizeAgainAppendsCz(s: Text)
    requires NormalizedHost(s).Success?
    requires !HasSuffix(NormalizedHost(s).value, CzSuffix)
    ensures NormalizedHost(NormalizedHost(s).value) == Success(NormalizedHost(s).value + CzSuffix)
            || NormalizedHost(NormalizedHost(s).value) == Failure(NotSecondLevel)
  {
    NormalizedIsSecondLevel(s);
    ParseAppendedHost(NormalizedHost(s).value);
  }

  /** A clean host without ".cz" gets "http://" and ".cz" added, and parses to host + ".cz". */
  lemma ParseAppendedHost(h: Text)
    requires Avoids(h, Delimiters) && NoControl(h) && !HasSuffix(h, CzSuffix)
    ensures ParseHost(Address(h)) == Success(h + CzSuffix)
  {
    AffixFacts();
    NoSlashNoScheme(h);
    SchemeKeepsNoSuffix(h);
    var host := h + CzSuffix;
    assert WithScheme(h) == Scheme + h;
    assert WithSuffix(Scheme + h) == (Scheme + h) + CzSuffix;
    assert Address(h) == Scheme + (host + []);
    NoControlAppend(h, CzSuffix);
    AvoidsAppend(h, CzSuffix, Delimiters);
    ParseHostCuts(host, []);
  }

  /** Normalising a result again gives it back exactly when it ends in ".cz". */
  lemma IdempotentExactlyOnCz(s: Text)
    requires NormalizedHost(s).Success?
    ensures NormalizedHost(NormalizedHost(s).value) == NormalizedHost(s)
            <==> HasSuffix(NormalizedHost(s).value, CzSuffix)
  {
    if HasSuffix(NormalizedHost(s).value, CzSuffix) {
      NormalizeIdempotentOnCz(s);
    } else {
      NormalizeAgainAppendsCz(s);
    }
  }

  lemma NoControlAppend(a: Text, b: Text)
    requires NoControl(a) && NoControl(b)
    ensures NoControl(a + b)
  {
    forall i | 0 <= i < |a + b|
      ensures !IsControl((a + b)[i])
    {
      if i >= |a| {
        assert (a + b)[i] == b[i - |a|];
      }
    }
  }

  lemma AvoidsAppend(a: Text, b: Text, bad: set<Byte>)
    requires Avoids(a, bad) && Avoids(b, bad)
    ensures Avoids(a + b, bad)
  {
    forall i | 0 <= i < |a + b|
      ensures (a + b)[i] !in bad
    {
      if i >= |a| {
        assert (a + b)[i] == b[i - |a|];
      }
    }
  }

  lemma AvoidsNoSuffix(s: Text, p: Text)
    requires |p| > 0 && Avoids(s, {p[0]})
    ensures !HasSuffix(s, p)
  {
    if |p| <= |s| {
      assert s[|s| - |p|..][0] == s[|s| - |p|];
    }
  }

  lemma AffixFacts()
    ensures Avoids(Scheme, {'.'}) && NoControl(Scheme) && NoControl(CzSuffix)
    ensures Avoids(CzSuffix, Delimiters) && Count(CzSuffix, '.') == 1
  {
  }

  /**
   * A bare name with no dot, no delimiter and no control byte becomes
   * "name.cz", and "name.cz" normalises to itself.
   */
  lemma BareNameFixedPoint(name: Text)
    requires Avoids(name, Delimiters + {'.'}) && NoControl(name)
    ensures NormalizedHost(name) == Success(name + CzSuffix)
    ensures NormalizedHost(name + CzSuffix) == Success(name + CzSuffix)
  {
    AffixFacts();
    assert Avoids(name, Delimiters) && Avoids(name, {'.'});
    NoSlashNoScheme(name);
    var u := Scheme + name;
    AvoidsAppend(Scheme, name, {'.'});
    AvoidsNoSuffix(u, CzSuffix);
    var host := name + CzSuffix;
    var v := u + CzSuffix;
    assert Address(name) == v;
    assert v == Scheme + host;
    NoControlAppend(name, CzSuffix);
    NoControlAppend(Scheme, host);
    NoControlBeforeFragment(v);
    assert v[|Scheme|..] == host;
    AvoidsAppend(name, CzSuffix, Delimiters);
    HostPartOfHost(host);
    CountZero(name, '.');
    CountAppend(name, CzSuffix, '.');
    assert NormalizedHost(name) == Success(host);
    NormalizeIdempotentOnCz(name);
  }

  /** "example" + ".cz" is "example.cz", element by element. */
  lemma ExampleHost(name: Text)
    requires name == "example"
    ensures name + CzSuffix == "example.cz"
  {
    var host := name + CzSuffix;
    forall i | 0 <= i < 10
      ensures host[i] == "example.cz"[i]
    {
      if i < 7 { assert host[i] == name[i]; } else { assert host[i] == CzSuffix[i - 7]; }
    }
  }

  /** Examples: "example" and "example.cz" both give "example.cz". */
  lemma ExampleBareNames()
    ensures NormalizedHost("example") == Success("example.cz")
    ensures NormalizedHost("example.cz") == Success("example.cz")
  {
    var name: Text := "example";
    ExampleHost(name);
    assert Avoids(name, Delimiters + {'.'}) by {
      forall i | 0 <= i < |name|
        ensures name[i] !in Delimiters + {'.'}
      {
        assert name[i] in {'e', 'x', 'a', 'm', 'p', 'l'};
      }
    }
    assert NoControl(name);
    BareNameFixedPoint(name);
  }

  lemma SchemeExampleText()
    ensures Scheme + "example.cz" == "http://example.cz"
  {
    var h: Text := "example.cz";
    var u := Scheme + h;
    forall i | 0 <= i < |u|
      ensures u[i] == "http://example.cz"[i]
    {
      if i < 7 { assert u[i] == Scheme[i]; } else { assert u[i] == h[i - 7]; }
    }
  }

  /** Example: "http://example.cz" gives "example.cz". */
  lemma ExampleWithScheme()
    ensures NormalizedHost("http://example.cz") == Success("example.cz")
  {
    ExampleBareNames();
    NormalizedIsSecondLevel("example");
    HostParsesToItself("example.cz");
    SchemeExampleText();
  }

  lemma CountTwo(s: Text, c: Byte, i: nat, j: nat)
    requires i < j < |s| && s[i] == c && s[j] == c
    ensures Count(s, c) >= 2
  {
    assert s == s[..j] + s[j..];
    assert s[..j][i] == c;
    assert s[j..][0] == c;
    CountZero(s[..j], c);
    CountZero(s[j..], c);
    CountAppend(s[..j], s[j..], c);
  }

  /** Example: a third-level name is refused. */
  lemma ExampleThirdLevel()
    ensures NormalizedHost("sub.example.cz") == Failure(NotSecondLevel)
  {
    var h: Text := "sub.example.cz";
    assert Avoids(h, Delimiters) && NoControl(h);
    assert HasSuffix(h, CzSuffix);
    CountTwo(h, '.', 3, 11);
    HostParsesToItself(h);
  }

  lemma FooText()
    ensures "foo" + CzSuffix == "foo.cz"
  {
    var a: Text := "foo";
    var u := a + CzSuffix;
    forall i | 0 <= i < |u|
      ensures u[i] == "foo.cz"[i]
    {
      if i < 3 { assert u[i] == a[i]; } else { assert u[i] == CzSuffix[i - 3]; }
    }
  }

  lemma PathAddress()
    ensures Address("foo/bar") == Scheme + ("foo" + "/bar.cz")
  {
    var s: Text := "foo/bar";
    assert !HasPrefix(s, Scheme) by {
      assert s[..|Scheme|][0] != Scheme[0];
    }
    assert !HasSuffix(s, CzSuffix) by {
      assert s[|s| - 3..][0] != CzSuffix[0];
    }
    assert s + CzSuffix == "foo" + "/bar.cz";
  }

  lemma PathHost()
    ensures ParseHost(Scheme + ("foo" + "/bar.cz")) == Success("foo")
  {
    var path: Text := "/bar.cz";
    assert NoControl(path);
    NoControlBeforeFragment(path);
    ParseHostCuts("foo", path);
  }

  lemma PathCutsHost()
    ensures NormalizedHost("foo/bar") == Success("foo")
  {
    PathAddress();
    PathHost();
    assert Count("foo", '.') == 0;
  }

  /**
   * Normalisation is not idempotent in general: a path after the name is cut
   * off after ".cz" was appended to it, so the host lacks ".cz".
   */
  lemma PathDefeatsSuffix()
    ensures NormalizedHost("foo/bar") == Success("foo")
    ensures NormalizedHost("foo") == Success("foo.cz")
  {
    PathCutsHost();
    var name: Text := "foo";
    assert Avoids(name, Delimiters + {'.'}) && NoControl(name);
    BareNameFixedPoint(name);
    FooText();
  }

  /** Example: a control byte after '#' is in the fragment, which is not checked. */
  lemma FragmentNotChecked()
    ensures NormalizedHost("foo#\U{01}") == Success("foo")
  {
    var frag: Text := "#\U{01}.cz";
    FragmentAddress();
    assert BeforeFragment(frag) == [];
    ParseHostCuts("foo", frag);
    assert Count("foo", '.') == 0;
  }

  lemma FragmentAddress()
    ensures Address("foo#\U{01}") == Scheme + ("foo" + "#\U{01}.cz")
  {
    var s: Text := "foo#\U{01}";
    assert !HasSuffix(s, CzSuffix) by {
      assert s[|s| - 3..][0] != CzSuffix[0];
    }
    assert s + CzSuffix == "foo" + "#\U{01}.cz";
  }
}
