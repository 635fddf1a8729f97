/** The user names of the test policy encode a collection and a set of
    permissions: `<collection>_<letters>`, where the letters are `q` (query),
    `u` (update) and `a` (all), each present or absent, always in that order. */
module Usernames {
  import opened Outcomes
  import opened Text

  /** What a user name says: the collection and the three permission flags. */
  datatype Permissions = Permissions(collection: string, isQuery: bool, isUpdate: bool, isAll: bool)

  /** The permission letters for the given flags, in the order q, u, a. */
  function PermissionLetters(isQuery: bool, isUpdate: bool, isAll: bool): string {
    (if isQuery then "q" else "") + (if isUpdate then "u" else "") + (if isAll then "a" else "")
  }

  /** Builds the user name with two string builders, as the harness does. */
  method GetUsernameForPermissions(collectionName: string, isQuery: bool, isUpdate: bool, isAll: bool)
    returns (username: string)
    ensures username == collectionName + "_" + PermissionLetters(isQuery, isUpdate, isAll)
    ensures ParseUsername(username) == Some(Permissions(collectionName, isQuery, isUpdate, isAll))
  {
    var finalStr := new StringBuilder();
    finalStr.Append(collectionName);
    finalStr.Append("_");
    var permissions := new StringBuilder();
    if isQuery {
      permissions.Append("q");
    }
    assert permissions.contents == if isQuery then "q" else "";
    if isUpdate {
      permissions.Append("u");
    }
    assert permissions.contents == (if isQuery then "q" else "") + (if isUpdate then "u" else "");
    if isAll {
      permissions.Append("a");
    }
    assert permissions.contents == PermissionLetters(isQuery, isUpdate, isAll);
    assert finalStr.contents == collectionName + "_";
    finalStr.Append(permissions.contents);
    username := finalStr.contents;
    UsernameRoundTrip(collectionName, isQuery, isUpdate, isAll);
  }

  /** Reads the permission letters back: an optional `q`, then `u`, then `a`, and nothing else. */
  function ParsePermissionLetters(p: string): Option<(bool, bool, bool)> {
    var q := |p| > 0 && p[0] == 'q';
    var p1 := if q then p[1..] else p;
    var u := |p1| > 0 && p1[0] == 'u';
    var p2 := if u then p1[1..] else p1;
    var a := |p2| > 0 && p2[0] == 'a';
    var p3 := if a then p2[1..] else p2;
    if p3 == [] then Some((q, u, a)) else None
  }

  /** The position of the last underscore in `s`, if any. */
  function LastUnderscore(s: string): (r: Option<nat>)
    ensures r.Some? ==> r.value < |s| && s[r.value] == '_' && '_' !in s[r.value + 1..]
    ensures r.None? ==> '_' !in s
  {
    if s == [] then None
    else if s[|s| - 1] == '_' then Some(|s| - 1)
    else
      var r := LastUnderscore(s[..|s| - 1]);
      assert s == s[..|s| - 1] + [s[|s| - 1]];
      r
  }

  /** Decodes a user name: the collection is everything before the last underscore,
      and what follows it must be a permission-letter string. */
  function ParseUsername(s: string): Option<Permissions> {
    match LastUnderscore(s)
    case None => None
    case Some(i) =>
      match ParsePermissionLetters(s[i + 1..])
      case None => None
      case Some(flags) => Some(Permissions(s[..i], flags.0, flags.1, flags.2))
  }

  lemma LastUnderscoreIsUnique(s: string, k: nat)
    requires k < |s| && s[k] == '_' && '_' !in s[k + 1..]
    ensures LastUnderscore(s) == Some(k)
  {
  }

  lemma PermissionLettersRoundTrip(isQuery: bool, isUpdate: bool, isAll: bool)
    ensures '_' !in PermissionLetters(isQuery, isUpdate, isAll)
    ensures ParsePermissionLetters(PermissionLetters(isQuery, isUpdate, isAll)) == Some((isQuery, isUpdate, isAll))
  {
  }

  lemma ParsedPermissionLetters(p: string, flags: (bool, bool, bool))
    requires ParsePermissionLetters(p) == Some(flags)
    ensures PermissionLetters(flags.0, flags.1, flags.2) == p
  {
  }

  /** Decoding a generated user name gives back the collection and the flags. */
  lemma UsernameRoundTrip(collectionName: string, isQuery: bool, isUpdate: bool, isAll: bool)
    ensures ParseUsername(collectionName + "_" + PermissionLetters(isQuery, isUpdate, isAll))
         == Some(Permissions(collectionName, isQuery, isUpdate, isAll))
  {
    var p := PermissionLetters(isQuery, isUpdate, isAll);
    var s := collectionName + "_" + p;
    PermissionLettersRoundTrip(isQuery, isUpdate, isAll);
    assert s[|collectionName| + 1..] == p;
    assert s[..|collectionName|] == collectionName;
    LastUnderscoreIsUnique(s, |collectionName|);
  }

  /** Every name that decodes is the generated name of what it decodes to. */
  lemma ParsedUsernameIsGenerated(s: string, perms: Permissions)
    requires ParseUsername(s) == Some(perms)
    ensures s == perms.collection + "_" + PermissionLetters(perms.isQuery, perms.isUpdate, perms.isAll)
  {
    var i := LastUnderscore(s).value;
    var flags := ParsePermissionLetters(s[i + 1..]).value;
    ParsedPermissionLetters(s[i + 1..], flags);
    assert s == s[..i] + "_" + s[i + 1..];
  }

  /** Different collections or different permission sets never share a user name. */
  lemma UsernameInjective(c1: string, q1: bool, u1: bool, a1: bool, c2: string, q2: bool, u2: bool, a2: bool)
    requires c1 + "_" + PermissionLetters(q1, u1, a1) == c2 + "_" + PermissionLetters(q2, u2, a2)
    ensures c1 == c2 && q1 == q2 && u1 == u2 && a1 == a2
  {
    UsernameRoundTrip(c1, q1, u1, a1);
    UsernameRoundTrip(c2, q2, u2, a2);
  }
}
