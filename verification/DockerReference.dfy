/**
 Docker image references with an explicit registry host: the parser of
 scripts/dev/local-registry-publisher.ts and the printer of
 packages/config/src/sandbox-base-images.ts.
 */
module DockerReference {
  import opened Common

  datatype Parts = Parts(registryHost: string, repository: string, tag: string)

  datatype ParseError = MissingRegistryHost | MissingTag | MissingRepositoryOrTag

  /** String.prototype.indexOf of one character, -1 when there is none. */
  function FirstIndex(s: string, c: char): (i: int)
    ensures IsFirst(s, c, i)
  {
    if s == "" then -1
    else if s[0] == c then 0
    else
      var rest := FirstIndex(s[1..], c);
      assert forall j :: 1 <= j < |s| ==> s[j] == s[1..][j - 1];
      if rest == -1 then -1 else rest + 1
  }

  /** String.prototype.lastIndexOf of one character. */
  function LastIndex(s: string, c: char): (i: int)
    ensures IsLast(s, c, i)
  {
    if s == "" then -1
    else if s[|s| - 1] == c then |s| - 1
    else LastIndex(s[..|s| - 1], c)
  }

  predicate IsFirst(s: string, c: char, i: int) {
    && -1 <= i < |s| && (i >= 0 ==> s[i] == c)
    && forall j | 0 <= j < (if i == -1 then |s| else i) :: s[j] != c
  }

  predicate IsLast(s: string, c: char, i: int) {
    && -1 <= i < |s| && (i >= 0 ==> s[i] == c)
    && forall j | i < j < |s| :: s[j] != c
  }

  predicate IsExplicitRegistryHost(value: string) {
    value == "localhost" || '.' in value || ':' in value
  }

  function ParseRepositoryAndTag(registryHost: string, repositoryAndTag: string): Result<Parts, ParseError> {
    var lastSlashIndex := LastIndex(repositoryAndTag, '/');
    var tagSeparatorIndex := LastIndex(repositoryAndTag, ':');
    if tagSeparatorIndex <= lastSlashIndex + 1 then Err(MissingTag)
    else
      var repository := repositoryAndTag[..tagSeparatorIndex];
      var tag := repositoryAndTag[tagSeparatorIndex + 1..];
      if repository == "" || tag == "" then Err(MissingRepositoryOrTag)
      else Ok(Parts(registryHost, repository, tag))
  }

  function ParseReference(imageRef: string): Result<Parts, ParseError> {
    var firstSlashIndex := FirstIndex(imageRef, '/');
    if firstSlashIndex <= 0 then Err(MissingRegistryHost)
    else
      var registryHost := imageRef[..firstSlashIndex];
      if !IsExplicitRegistryHost(registryHost) then Err(MissingRegistryHost)
      else ParseRepositoryAndTag(registryHost, imageRef[firstSlashIndex + 1..])
  }

  function PrintReference(parts: Parts): string {
    parts.registryHost + "/" + parts.repository + ":" + parts.tag
  }

  /** The parts a reference can carry. */
  predicate Printable(parts: Parts) {
    && IsExplicitRegistryHost(parts.registryHost) && '/' !in parts.registryHost
    && parts.repository != "" && parts.repository[|parts.repository| - 1] != '/'
    && parts.tag != "" && ':' !in parts.tag && '/' !in parts.tag
  }

  /** Every accepted reference prints back to itself, and its parts are printable. */
  lemma AcceptedReferencesPrintBack(imageRef: string)
    requires ParseReference(imageRef).Ok?
    ensures PrintReference(ParseReference(imageRef).value) == imageRef
    ensures Printable(ParseReference(imageRef).value)
  {
    var slash := FirstIndex(imageRef, '/');
    var host, rest := imageRef[..slash], imageRef[slash + 1..];
    assert imageRef == host + "/" + rest;
    AcceptedTagsPrintBack(host, rest);
    PrintReassociates(ParseReference(imageRef).value);
  }

  lemma PrintReassociates(parts: Parts)
    ensures PrintReference(parts) == parts.registryHost + "/" + (parts.repository + ":" + parts.tag)
  {
  }

  lemma AcceptedTagsPrintBack(host: string, rest: string)
    requires ParseRepositoryAndTag(host, rest).Ok? && IsExplicitRegistryHost(host) && '/' !in host
    ensures var parts := ParseRepositoryAndTag(host, rest).value;
      parts.registryHost == host && rest == parts.repository + ":" + parts.tag && Printable(parts)
  {
    SplitTagIsPrintable(rest, LastIndex(rest, '/'), LastIndex(rest, ':'));
  }

  lemma SplitTagIsPrintable(rest: string, lastSlash: int, colon: int)
    requires IsLast(rest, '/', lastSlash) && IsLast(rest, ':', colon) && colon > lastSlash + 1
    ensures rest == rest[..colon] + ":" + rest[colon + 1..]
    ensures rest[..colon] != "" && rest[..colon][colon - 1] != '/'
    ensures ':' !in rest[colon + 1..] && '/' !in rest[colon + 1..]
  {
  }

  /** Printed parts parse back to themselves exactly when they are printable. */
  lemma PrintedPartsParseBackIff(parts: Parts)
    ensures ParseReference(PrintReference(parts)) == Ok(parts) <==> Printable(parts)
  {
    if ParseReference(PrintReference(parts)) == Ok(parts) {
      AcceptedReferencesPrintBack(PrintReference(parts));
    }
    if Printable(parts) {
      PrintablePartsParseBack(parts);
    }
  }

  /** Exactly which references are accepted, and with which parts. */
  lemma AcceptedIff(imageRef: string, host: string, repository: string, tag: string)
    ensures ParseReference(imageRef) == Ok(Parts(host, repository, tag))
            <==> && imageRef == host + "/" + repository + ":" + tag
                 && '/' !in host && (host == "localhost" || '.' in host || ':' in host)
                 && repository != "" && repository[|repository| - 1] != '/'
                 && tag != "" && ':' !in tag && '/' !in tag
  {
    PrintedPartsParseBackIff(Parts(host, repository, tag));
    if ParseReference(imageRef) == Ok(Parts(host, repository, tag)) {
      AcceptedReferencesPrintBack(imageRef);
    }
  }

  /** The registry host is missed exactly when no explicit host stands before the first slash. */
  lemma HostIsMissedIff(imageRef: string)
    ensures ParseReference(imageRef) == Err(MissingRegistryHost)
            <==> !exists host, rest :: BeginsWithHost(imageRef, host, rest)
  {
    var slash := FirstIndex(imageRef, '/');
    if slash > 0 && IsExplicitRegistryHost(imageRef[..slash]) {
      assert imageRef == imageRef[..slash] + "/" + imageRef[slash + 1..];
      assert BeginsWithHost(imageRef, imageRef[..slash], imageRef[slash + 1..]);
    }
    if host, rest :| BeginsWithHost(imageRef, host, rest) {
      HostIsFound(host, rest);
    }
  }

  predicate BeginsWithHost(imageRef: string, host: string, rest: string) {
    '/' !in host && (host == "localhost" || '.' in host || ':' in host) && imageRef == host + "/" + rest
  }

  lemma FirstIsUnique(s: string, c: char, i: int, j: int)
    requires IsFirst(s, c, i) && IsFirst(s, c, j)
    ensures i == j
  {
  }

  lemma LastIsUnique(s: string, c: char, i: int, j: int)
    requires IsLast(s, c, i) && IsLast(s, c, j)
    ensures i == j
  {
  }

  lemma PrintablePartsParseBack(parts: Parts)
    requires Printable(parts)
    ensures ParseReference(PrintReference(parts)) == Ok(parts)
  {
    var rest := parts.repository + ":" + parts.tag;
    PrintReassociates(parts);
    HostIsFound(parts.registryHost, rest);
    TagSeparatorIsFound(parts.repository, parts.tag);
  }

  lemma HostIsFound(host: string, rest: string)
    requires '/' !in host
    ensures var text := host + "/" + rest;
      FirstIndex(text, '/') == |host| && text[..|host|] == host && text[|host| + 1..] == rest
  {
    var text := host + "/" + rest;
    FirstIsUnique(text, '/', |host|, FirstIndex(text, '/'));
  }

  lemma TagSeparatorIsFound(repository: string, tag: string)
    requires repository != "" && repository[|repository| - 1] != '/' && ':' !in tag && '/' !in tag
    ensures var rest := repository + ":" + tag;
      && LastIndex(rest, ':') == |repository| && LastIndex(rest, '/') < |repository| - 1
      && rest[..|repository|] == repository && rest[|repository| + 1..] == tag
  {
    var rest, r := repository + ":" + tag, |repository|;
    forall j | r < j < |rest| ensures rest[j] != ':' && rest[j] != '/' {
      assert rest[j] == tag[j - r - 1] && tag[j - r - 1] in tag;
    }
    assert IsLast(rest, ':', r);
    LastIsUnique(rest, ':', r, LastIndex(rest, ':'));
    assert rest[r - 1] == repository[r - 1] && rest[r] == ':';
  }
}
