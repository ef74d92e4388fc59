/** Username normalisation of the RADIUS server (`formatUsername`). */
module Username {

  /** The domain appended to names that carry none. */
  const DefaultDomain: string := "gamutvisual.pe"

  /** The suffix a bare name receives: `@` followed by the default domain. */
  const DomainSuffix: string := "@" + DefaultDomain

  /** A name is qualified when it already contains `@` (`username.includes("@")`). */
  predicate IsQualified(name: string) {
    '@' in name
  }

  /** `formatUsername`: a qualified name is kept as it is; a bare name gets the
      default domain appended. */
  function FormatUsername(name: string): (r: string)
    ensures IsQualified(r)
    ensures IsQualified(name) ==> r == name
    ensures !IsQualified(name) ==> |r| == |name| + |DomainSuffix| && r[..|name|] == name && r[|name|..] == DomainSuffix
  {
    if IsQualified(name) then name else name + DomainSuffix
  }

  /** The part of a name before its first `@` (the whole name when it has none). */
  function LocalPart(s: string): (r: string)
    ensures '@' !in r
    ensures |r| <= |s|
  {
    if s == [] || s[0] == '@' then [] else [s[0]] + LocalPart(s[1..])
  }

  /** Whatever follows a bare prefix once an `@` starts, the local part is that prefix. */
  lemma {:induction false} LocalPartOfAppended(prefix: string, rest: string)
    requires '@' !in prefix
    requires rest != [] && rest[0] == '@'
    ensures LocalPart(prefix + rest) == prefix
  {
    if prefix == [] {
      assert prefix + rest == rest;
    } else {
      assert (prefix + rest)[0] == prefix[0];
      assert (prefix + rest)[1..] == prefix[1..] + rest;
      LocalPartOfAppended(prefix[1..], rest);
    }
  }

  /** A name is bare exactly when its local part is the whole name. */
  lemma {:induction false} BareIffOwnLocalPart(name: string)
    ensures !IsQualified(name) <==> LocalPart(name) == name
  {
    if name != [] && name[0] != '@' {
      BareIffOwnLocalPart(name[1..]);
      assert name == [name[0]] + name[1..];
    }
  }

  /** A bare name can be read back from its formatted form: formatting loses nothing. */
  lemma LocalPartOfFormatted(name: string)
    requires !IsQualified(name)
    ensures LocalPart(FormatUsername(name)) == name
  {
    LocalPartOfAppended(name, DomainSuffix);
  }

  /** Two different bare names never become the same formatted name. */
  lemma FormatUsernameInjectiveOnBare(a: string, b: string)
    requires !IsQualified(a) && !IsQualified(b)
    requires FormatUsername(a) == FormatUsername(b)
    ensures a == b
  {
  }

  /** Formatting an already formatted name changes nothing. */
  lemma FormatUsernameIdempotent(name: string)
    ensures FormatUsername(FormatUsername(name)) == FormatUsername(name)
  {
  }

  /** A bare name and its explicitly qualified twin in the default domain become
      the same name, and so share everything keyed by the formatted name. */
  lemma BareAndDefaultQualifiedCoincide(name: string)
    requires !IsQualified(name)
    ensures FormatUsername(name) == FormatUsername(name + DomainSuffix)
  {
  }
}
