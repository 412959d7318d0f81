/** Storage keys for report blobs (src/cloudops_guard/ingestion/storage_keys.py). */
module StorageKeys {
  import opened Wrappers
  import opened Models
  import opened Unicode

  const MAX_IDENTIFIER_LENGTH := 256

  predicate HasDoubleDot(s: string) {
    exists i :: 0 <= i < |s| - 1 && s[i] == '.' && s[i + 1] == '.'
  }

  /** What _validate_identifier lets through. */
  predicate ValidIdentifier(s: string) {
    && 0 < |s| <= MAX_IDENTIFIER_LENGTH
    && '\0' !in s && '/' !in s && '\\' !in s
    && !HasDoubleDot(s) && s != "."
    && !IsSpace(s[0] as int) && !IsSpace(s[|s| - 1] as int)
  }

  predicate ValidKey(k: Key) { ValidIdentifier(k.tenant) && ValidIdentifier(k.ingestion) }

  function StorageKey(k: Key): string { k.tenant + "/" + k.ingestion }

  /** None where the original raises InvalidIdentifierError. */
  function Derive(tenant: string, ingestion: string): Option<string> {
    if ValidKey(Key(tenant, ingestion)) then Some(StorageKey(Key(tenant, ingestion))) else None
  }

  /** Two accepted identities never share a storage key. */
  lemma DeriveInjective(k: Key, j: Key)
    requires Derive(k.tenant, k.ingestion).Some?
    requires Derive(k.tenant, k.ingestion) == Derive(j.tenant, j.ingestion)
    ensures k == j
  {
    var s := StorageKey(k);
    assert s == StorageKey(j);
    assert forall i :: 0 <= i < |k.tenant| ==> s[i] == k.tenant[i] && s[i] != '/';
    assert forall i :: 0 <= i < |j.tenant| ==> s[i] == j.tenant[i] && s[i] != '/';
    assert s[|k.tenant|] == '/' && s[|j.tenant|] == '/';
    assert k.tenant == s[..|k.tenant|] == j.tenant;
    assert k.ingestion == s[|k.tenant| + 1..] == j.ingestion;
  }

  /** A storage key is a two-segment relative path: one separator, no empty, "." or ".." segment. */
  lemma StorageKeyIsSafePath(k: Key)
    requires Derive(k.tenant, k.ingestion).Some?
    ensures var s := Derive(k.tenant, k.ingestion).value;
            && (forall i :: 0 <= i < |s| && s[i] == '/' <==> i == |k.tenant|)
            && 0 < |k.tenant| < |s| - 1
            && !HasDoubleDot(s) && '\\' !in s && '\0' !in s
            && s[..|k.tenant|] != "." && s[|k.tenant| + 1..] != "."
  {
    var s, n := StorageKey(k), |k.tenant|;
    assert s[n] == '/';
    assert forall i :: 0 <= i < n ==> s[i] == k.tenant[i] && s[i] != '/';
    assert forall i :: n < i < |s| ==> s[i] == k.ingestion[i - n - 1] && s[i] != '/';
    forall i | 0 <= i < |s| - 1 ensures !(s[i] == '.' && s[i + 1] == '.') {
      assert i + 1 < n ==> !(k.tenant[i] == '.' && k.tenant[i + 1] == '.');
      assert i > n ==> !(k.ingestion[i - n - 1] == '.' && k.ingestion[i - n] == '.');
    }
    assert s[..n] == k.tenant && s[n + 1..] == k.ingestion;
  }

  /** What is wrong with an identifier, character by character. */
  predicate Faulty(s: string) {
    || |s| == 0 || |s| > 256
    || (exists i :: 0 <= i < |s| && (s[i] == '\0' || s[i] == '/' || s[i] == '\\'))
    || (exists i :: 0 <= i < |s| - 1 && s[i] == '.' == s[i + 1])
    || s == ['.']
    || IsSpace(s[0] as int) || IsSpace(s[|s| - 1] as int)
  }

  /** A storage key is derived exactly when neither identifier is faulty, and it is the two with a slash between. */
  lemma DeriveExactly(tenant: string, ingestion: string)
    ensures Derive(tenant, ingestion) ==
      if Faulty(tenant) || Faulty(ingestion) then None else Some(tenant + ['/'] + ingestion)
  {
    FaultyExactly(tenant);
    FaultyExactly(ingestion);
  }

  lemma FaultyExactly(s: string)
    ensures ValidIdentifier(s) <==> !Faulty(s)
  {
    assert '\0' in s || '/' in s || '\\' in s <==> exists i :: 0 <= i < |s| && (s[i] == '\0' || s[i] == '/' || s[i] == '\\');
  }
}
