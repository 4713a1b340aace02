/** Country codes as the configuration, the detectors and the enforcer compare them
    (ASCII case folding). */
module Countries {
  import opened TargetText

  function UpperChar(c: char): char {
    if 'a' <= c <= 'z' then 'A' + (c - 'a') else c
  }

  function Upper(s: string): (r: string)
    ensures |r| == |s| && forall i :: 0 <= i < |s| ==> r[i] == UpperChar(s[i])
  {
    seq(|s|, i requires 0 <= i < |s| => UpperChar(s[i]))
  }

  /** unicode.IsSpace, within ASCII. */
  predicate IsSpace(c: char) { c in {' ', '\t', '\n', '\U{000B}', '\U{000C}', '\r'} }

  function Trim(s: string): string
    decreases |s|
  {
    if s == "" then s
    else if IsSpace(s[0]) then Trim(s[1..])
    else if IsSpace(s[|s| - 1]) then Trim(s[..|s| - 1])
    else s
  }

  /** What loading the configuration makes of the list of allowed countries. */
  function LoadCountries(raw: seq<string>): seq<string> {
    seq(|raw|, i requires 0 <= i < |raw| => Upper(Trim(raw[i])))
  }

  /** The detectors: case-insensitive, ignoring blanks around the entry. */
  predicate DetectorAllows(list: seq<string>, country: string) {
    exists a <- list :: Upper(Trim(a)) == Upper(country)
  }

  /** The enforcer: case-insensitive only; an unknown country is never allowed. */
  predicate EnforcerAllows(list: seq<string>, country: string) {
    country != "" && exists a <- list :: Upper(a) == Upper(country)
  }

  /** isIPFromAllowedCountry, on a text whose part before "/" is the address. */
  predicate VetoedByCountry(list: seq<string>, geo: Option<string -> string>, ip: string) {
    ip != "" && list != [] && geo.Some? && EnforcerAllows(list, geo.value(BaseText(ip)))
  }

  function BaseText(ip: string): string {
    match IndexOf(ip, '/')
    case Some(i) => ip[..i]
    case None => ip
  }

  // ---- a loaded list reads the same for detectors and enforcer ----

  lemma UpperTwice(s: string)
    ensures Upper(Upper(s)) == Upper(s)
  {
  }

  predicate Trimmed(s: string) {
    s == "" || (!IsSpace(s[0]) && !IsSpace(s[|s| - 1]))
  }

  lemma {:induction false} TrimTrims(s: string)
    ensures Trimmed(Trim(s))
    decreases |s|
  {
    if s != "" {
      if IsSpace(s[0]) { TrimTrims(s[1..]); }
      else if IsSpace(s[|s| - 1]) { TrimTrims(s[..|s| - 1]); }
    }
  }

  lemma LoadedEntry(raw: string)
    ensures var a := Upper(Trim(raw)); Trim(a) == a && Upper(a) == a
  {
    TrimTrims(raw);
    UpperTwice(Trim(raw));
  }

  /** Every list that went through the loader is read alike by both sides. */
  lemma LoadedListAgrees(raw: seq<string>, country: string)
    requires country != ""
    ensures var list := LoadCountries(raw);
            DetectorAllows(list, country) <==> EnforcerAllows(list, country)
  {
    var list := LoadCountries(raw);
    forall a | a in list ensures Upper(Trim(a)) == Upper(a) {
      var i :| 0 <= i < |list| && list[i] == a;
      LoadedEntry(raw[i]);
    }
  }

  /** Any list, loaded or not, is read alike by both sides exactly when no entry has blanks
      around it. */
  lemma ReadAlikeExactly(list: seq<string>)
    ensures (forall c :: c != "" ==> (DetectorAllows(list, c) <==> EnforcerAllows(list, c)))
        <==> forall a <- list :: Trimmed(a)
  {
    hide Trim, Upper, Trimmed;
    if a :| a in list && !Trimmed(a) {
      forall b | b in list ensures Upper(Trim(b)) != Upper(a) {
        TrimTrims(b);
        BlanksSurviveUpper(Trim(b), a);
      }
      EmptyIsTrimmed();
      assert a != "" && EnforcerAllows(list, a) && !DetectorAllows(list, a);
    } else {
      forall a | a in list ensures Trim(a) == a { TrimmedStays(a); }
    }
  }

  lemma EmptyIsTrimmed()
    ensures Trimmed("")
  {
  }

  lemma TrimmedStays(s: string)
    requires Trimmed(s)
    ensures Trim(s) == s
  {
  }

  lemma BlanksSurviveUpper(a: string, b: string)
    requires Trimmed(a) && !Trimmed(b)
    ensures Upper(a) != Upper(b)
  {
    assert IsSpace(Upper(b)[0]) || IsSpace(Upper(b)[|b| - 1]);
    if a != "" { assert !IsSpace(Upper(a)[0]) && !IsSpace(Upper(a)[|a| - 1]); }
  }

  // ---- the comparison, letter by letter ----

  /** One letter in its two cases. */
  predicate SameLetter(x: char, y: char) {
    || x == y
    || ('a' <= x <= 'z' && x as int == y as int + 32)
    || ('a' <= y <= 'z' && y as int == x as int + 32)
  }

  ghost predicate SameUpToCase(a: string, b: string) {
    |a| == |b| && forall i :: 0 <= i < |a| ==> SameLetter(a[i], b[i])
  }

  lemma UpperExact(a: string, b: string)
    ensures Upper(a) == Upper(b) <==> SameUpToCase(a, b)
  {
    forall x: char, y: char ensures UpperChar(x) == UpperChar(y) <==> SameLetter(x, y) { LettersExact(x, y); }
    if Upper(a) == Upper(b) {
      assert |a| == |b|;
      assert forall i :: 0 <= i < |a| ==> UpperChar(a[i]) == Upper(a)[i] == Upper(b)[i] == UpperChar(b[i]);
    }
  }

  lemma LettersExact(x: char, y: char)
    ensures UpperChar(x) == UpperChar(y)
       <==> SameLetter(x, y)
  {
  }

  /** What is trimmed is blank, on both sides, and nothing blank is left at either end. */
  lemma {:induction false} TrimExact(s: string) returns (before: string, after: string)
    ensures s == before + Trim(s) + after && Trimmed(Trim(s))
    ensures forall c <- before + after :: IsSpace(c)
    decreases |s|
  {
    before, after := "", "";
    if s != "" {
      if IsSpace(s[0]) {
        before, after := TrimExact(s[1..]);
        before := [s[0]] + before;
        assert s == [s[0]] + s[1..];
      } else if IsSpace(s[|s| - 1]) {
        before, after := TrimExact(s[..|s| - 1]);
        after := after + [s[|s| - 1]];
        assert s == s[..|s| - 1] + [s[|s| - 1]];
      }
    }
  }

  /** The text in front of the first "/", or all of it. */
  ghost predicate IsBase(base: string, ip: string) {
    base <= ip && '/' !in base && (base == ip || ip[|base|] == '/')
  }

  lemma BaseTextExact(ip: string, base: string)
    ensures IsBase(base, ip) <==> base == BaseText(ip)
  {
    if IsBase(base, ip) && base != ip {
      assert ip[..|base|] == base;
      IndexOfFirst(ip, '/', |base|);
    }
  }

  /** A known country that is on the list, whatever the case of its letters. */
  ghost predicate OnList(list: seq<string>, country: string) {
    country != "" && exists a <- list :: SameUpToCase(a, country)
  }

  lemma NobodyListed(country: string)
    ensures !OnList([], country)
  {
  }

  /** Both sides of the comparison, letter by letter. */
  lemma AllowsExact(list: seq<string>, country: string)
    ensures EnforcerAllows(list, country)
       <==> OnList(list, country)
    ensures DetectorAllows(list, country)
       <==> exists a <- list :: SameUpToCase(Trim(a), country)
  {
    hide Upper, SameUpToCase;
    forall a: string ensures Upper(a) == Upper(country) <==> SameUpToCase(a, country) { UpperExact(a, country); }
  }

  /** The enforcer's exemption, letter by letter: for an address with that base, a country is
      configured that the lookup gives it. */
  lemma VetoExact(list: seq<string>, geo: Option<string -> string>, ip: string, base: string)
    requires IsBase(base, ip)
    ensures VetoedByCountry(list, geo, ip)
       <==> ip != "" && geo.Some? && OnList(list, geo.value(base))
  {
    BaseTextExact(ip, base);
    hide BaseText, OnList, EnforcerAllows;
    if geo.Some? { AllowsExact(list, geo.value(base)); }
    if list == [] && geo.Some? { NobodyListed(geo.value(base)); }
  }
}
