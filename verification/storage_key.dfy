/**
  The storage path of an accepted file:
  `${coupleNames.replace(' & ', '-')}/${Date.now()}_${token}.${ext}`, where
  the token is `Math.random().toString(36).substring(2, 15)`. The clock
  reading and the token are parameters.
 */
module StorageKey {
  import opened Wrappers
  import opened Strings
  import opened Validation

  /** The folder named after the couple: the first `" & "` becomes `-`. */
  function Folder(coupleNames: string): string {
    ReplaceFirst(coupleNames, " & ", "-")
  }

  /** The characters `toString(36)` produces after the leading `0.`. */
  predicate IsToken(token: string) {
    forall i :: 0 <= i < |token| ==> IsDigit(token[i]) || 'a' <= token[i] <= 'z'
  }

  /** The object key for an accepted file. */
  function ObjectKey(coupleNames: string, now: nat, token: string, ext: string): string {
    Folder(coupleNames) + "/" + NatToString(now) + "_" + token + "." + ext
  }

  /** The pieces a key is made of. */
  datatype KeyParts = KeyParts(folder: string, timestamp: nat, token: string, ext: string)

  /** Reads a key back into its pieces, working from the right. */
  function ParseKey(key: string): Option<KeyParts> {
    if '/' !in key then None
    else
      var name := AfterLast(key, '/');
      if '.' !in name then None
      else
        var body := BeforeLast(name, '.');
        if '_' !in body then None
        else
          var stamp := BeforeLast(body, '_');
          if forall i :: 0 <= i < |stamp| ==> IsDigit(stamp[i]) then
            Some(KeyParts(BeforeLast(key, '/'), StringToNat(stamp), AfterLast(body, '_'), AfterLast(name, '.')))
          else None
  }

  /**
    Every key built for an accepted file reads back into the couple folder,
    the clock reading, the token and the validated extension.
   */
  lemma ParseObjectKey(coupleNames: string, now: nat, token: string, ext: string)
    requires IsToken(token) && ext in AllowedExtensions
    ensures ParseKey(ObjectKey(coupleNames, now, token, ext)) == Some(KeyParts(Folder(coupleNames), now, token, ext))
  {
    AllowedAreWords(ext);
    WordShape(ext);
    var stamp := NatToString(now);
    assert ObjectKey(coupleNames, now, token, ext) == Folder(coupleNames) + ['/'] + (stamp + ['_'] + token + ['.'] + ext);
    ParseAssembled(Folder(coupleNames), stamp, token, ext);
    StringToNatOfNatToString(now);
  }

  /** A key assembled from pieces that avoid the separators to their left reads back into them. */
  lemma ParseAssembled(folder: string, stamp: string, token: string, ext: string)
    requires forall i :: 0 <= i < |stamp| ==> IsDigit(stamp[i])
    requires IsToken(token) && IsExtensionWord(ext)
    ensures ParseKey(folder + ['/'] + (stamp + ['_'] + token + ['.'] + ext)) ==
              Some(KeyParts(folder, StringToNat(stamp), token, ext))
  {
    var body := stamp + ['_'] + token;
    var name := body + ['.'] + ext;
    var key := folder + ['/'] + name;
    assert name == stamp + ['_'] + token + ['.'] + ext;
    NoSlash(stamp, token, ext);
    AfterLastAround(folder, name, '/');
    BeforeLastAround(folder, name, '/');
    assert '/' in key && AfterLast(key, '/') == name && BeforeLast(key, '/') == folder;
    NameParts(body, ext);
    BodyParts(stamp, token);
  }

  lemma NoSlash(stamp: string, token: string, ext: string)
    requires forall i :: 0 <= i < |stamp| ==> IsDigit(stamp[i])
    requires IsToken(token) && IsExtensionWord(ext)
    ensures '/' !in stamp + ['_'] + token + ['.'] + ext
  {
    assert '/' !in stamp && '/' !in token && '/' !in ext;
  }

  lemma NameParts(body: string, ext: string)
    requires IsExtensionWord(ext)
    ensures '.' in body + ['.'] + ext
    ensures AfterLast(body + ['.'] + ext, '.') == ext && BeforeLast(body + ['.'] + ext, '.') == body
  {
    assert '.' !in ext;
    AfterLastAround(body, ext, '.');
    BeforeLastAround(body, ext, '.');
  }

  lemma BodyParts(stamp: string, token: string)
    requires IsToken(token)
    ensures '_' in stamp + ['_'] + token
    ensures AfterLast(stamp + ['_'] + token, '_') == token && BeforeLast(stamp + ['_'] + token, '_') == stamp
  {
    assert '_' !in token;
    AfterLastAround(stamp, token, '_');
    BeforeLastAround(stamp, token, '_');
  }

  /**
    Two keys for the same couple coincide exactly when the clock readings,
    the tokens and the extensions do; the file's own name plays no part.
   */
  lemma ObjectKeyInjective(coupleNames: string, now1: nat, token1: string, ext1: string,
                                                 now2: nat, token2: string, ext2: string)
    requires IsToken(token1) && ext1 in AllowedExtensions
    requires IsToken(token2) && ext2 in AllowedExtensions
    ensures ObjectKey(coupleNames, now1, token1, ext1) == ObjectKey(coupleNames, now2, token2, ext2)
            <==> now1 == now2 && token1 == token2 && ext1 == ext2
  {
    ParseObjectKey(coupleNames, now1, token1, ext1);
    ParseObjectKey(coupleNames, now2, token2, ext2);
  }

  /** The key's own extension, by the validation rule, is the validated extension. */
  lemma KeyKeepsExtension(coupleNames: string, now: nat, token: string, ext: string)
    requires IsToken(token) && ext in AllowedExtensions
    ensures Extension(ObjectKey(coupleNames, now, token, ext)) == ext
  {
    AllowedShape(ext);
    var key := ObjectKey(coupleNames, now, token, ext);
    assert key == (Folder(coupleNames) + "/" + NatToString(now) + "_" + token) + ['.'] + ext;
    AfterLastAround(Folder(coupleNames) + "/" + NatToString(now) + "_" + token, ext, '.');
  }

  /** Only the first `" & "` is replaced: `"A & B & C"` gives the folder `"A-B & C"`. */
  lemma FolderReplacesFirstOnly()
    ensures Folder("A & B & C") == "A-B & C"
  {
    FolderOfExample("A & B & C");
  }

  lemma FolderOfExample(s: string)
    requires s == "A & B & C"
    ensures Folder(s) == "A-B & C"
  {
    FirstSeparatorOfExample(s);
    assert s[..1] == "A" && s[4..] == "B & C";
    assert "A" + "-" + "B & C" == "A-B & C";
  }

  lemma FirstSeparatorOfExample(s: string)
    requires s == "A & B & C"
    ensures IndexOf(s, " & ") == Some(1)
  {
    SeparatorFirstAtOne(s);
  }

  lemma SeparatorFirstAtOne(s: string)
    requires s == "A & B & C"
    ensures OccursAt(s, " & ", 1) && !OccursAt(s, " & ", 0)
  {
    assert s[1..4] == " & ";
    assert s[0..3][0] == 'A';
  }

  /** A couple name without `" & "` is the folder as it stands. */
  lemma FolderWithoutSeparator(coupleNames: string)
    requires forall j :: !OccursAt(coupleNames, " & ", j)
    ensures Folder(coupleNames) == coupleNames
  {
  }
}
