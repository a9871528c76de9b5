/** Content-addressed storage keys: how a photo's household, class, digest and extension become one
    object key, and how a key's class is read back (internal/media/adapter/photo_validation.go). */
module StorageKeys {
  import opened Prelude

  type Ref = string

  predicate IsHex(c: char) {
    '0' <= c <= '9' || 'a' <= c <= 'f'
  }

  /** A lower-case hex sha256: what the content_sha256 column accepts. */
  type Digest = s: string | |s| == 64 && forall i | 0 <= i < |s| :: IsHex(s[i])
    witness seq(64, _ => '0')

  /** A canonical household id. */
  type Uuid = s: string | |s| == 36 && forall i | 0 <= i < |s| :: IsHex(s[i]) || s[i] == '-'
    witness seq(36, _ => '-')

  datatype PhotoClass = Unspecified | Album | ChoreProof | RewardImage

  function ClassKeyPrefix(photoClass: PhotoClass): Option<string> {
    match photoClass
    case Album => Some("photos")
    case ChoreProof => Some("chore-photos")
    case RewardImage => Some("reward-images")
    case Unspecified => None
  }

  function ExtensionForContentType(contentType: string): Option<string> {
    if contentType == "image/jpeg" then Some("jpg")
    else if contentType == "image/png" then Some("png")
    else if contentType == "image/webp" then Some("webp")
    else None
  }

  /** households/<household>/<class-prefix>/<aa>/<digest>.<ext>; None for a class with no namespace. */
  function BuildStorageKey(household: Uuid, photoClass: PhotoClass, sum: Digest, ext: string): Option<Ref> {
    match ClassKeyPrefix(photoClass)
    case None => None
    case Some(prefix) =>
      Some("households" + "/" + (household + "/" + (prefix + "/" + (sum[..2] + "/" + (sum + "." + ext)))))
  }

  /** Position of the first '/' of s at or after `from`, or |s|. */
  function SlashAt(s: string, from: nat): (i: nat)
    requires from <= |s|
    ensures from <= i <= |s|
    ensures i < |s| ==> s[i] == '/'
    ensures '/' !in s[from..i]
    decreases |s| - from
  {
    if from == |s| || s[from] == '/' then from else
      var i := SlashAt(s, from + 1);
      assert s[from..i] == [s[from]] + s[from + 1..i];
      i
  }

  /** Splits s at its first n - 1 slashes. */
  function SplitN(s: string, n: nat): (parts: seq<string>)
    requires n >= 1
    ensures 1 <= |parts| <= n
  {
    var i := SlashAt(s, 0);
    if n == 1 || i == |s| then [s] else [s[..i]] + SplitN(s[i + 1..], n - 1)
  }

  /** Whether the third path segment of a key under households/ is this class's prefix. */
  predicate KeyBelongsToClass(key: Ref, classPrefix: string) {
    var parts := SplitN(key, 4);
    |parts| >= 3 && parts[0] == "households" && parts[2] == classPrefix
  }

  function ClassOfKey(key: Ref): Option<PhotoClass> {
    var parts := SplitN(key, 4);
    if |parts| < 3 || parts[0] != "households" then None
    else if parts[2] == "photos" then Some(Album)
    else if parts[2] == "chore-photos" then Some(ChoreProof)
    else if parts[2] == "reward-images" then Some(RewardImage)
    else None
  }

  lemma SplitAtSlash(head: string, tail: string, n: nat)
    requires '/' !in head
    requires n >= 2
    ensures SplitN(head + "/" + tail, n) == [head] + SplitN(tail, n - 1)
  {
    var s := head + "/" + tail;
    var i := SlashAt(s, 0);
    assert s[|head|] == '/' && forall k | 0 <= k < |head| :: s[k] == head[k];
    assert i <= |head| by {
      assert forall k | 0 <= k < i :: s[0..i][k] == s[k];
    }
    assert s[..i] == head;
    assert s[i + 1..] == tail;
  }

  /** The listing filter of the object store and the class parser agree on every key. */
  lemma ListingAgreesWithClass(key: Ref, photoClass: PhotoClass)
    ensures ClassOfKey(key) == Some(photoClass)
            <==> ClassKeyPrefix(photoClass).Some? && KeyBelongsToClass(key, ClassKeyPrefix(photoClass).value)
  {
  }

  lemma SegmentsOfKey(household: string, prefix: string, file: string)
    requires '/' !in household && '/' !in prefix
    ensures var parts := SplitN("households" + "/" + (household + "/" + (prefix + "/" + file)), 4);
            |parts| >= 3 && parts[0] == "households" && parts[2] == prefix
  {
    SplitAtSlash("households", household + "/" + (prefix + "/" + file), 4);
    SplitAtSlash(household, prefix + "/" + file, 3);
    SplitAtSlash(prefix, file, 2);
  }

  /** The key is households/<household>/<prefix>, or that and a slash and anything. */
  ghost predicate IsFiledUnder(key: Ref, prefix: string) {
    exists household, tail :: HasParts(key, household, prefix, tail)
  }

  ghost predicate HasParts(key: Ref, household: string, prefix: string, tail: string) {
    && '/' !in household && (tail == "" || tail[0] == '/')
    && key == "households" + "/" + (household + "/" + (prefix + tail))
  }

  lemma HeadOf(head: string, tail: string)
    requires '/' !in head && (tail == "" || tail[0] == '/')
    ensures SplitN(head + tail, 2)[0] == head
  {
    if tail == "" {
      assert head + tail == head;
      assert SlashAt(head, 0) == |head|;
    } else {
      assert head + tail == head + "/" + tail[1..];
      SplitAtSlash(head, tail[1..], 2);
    }
  }

  lemma FiledKeySplits(key: Ref, household: string, prefix: string, tail: string)
    requires HasParts(key, household, prefix, tail) && '/' !in prefix
    ensures var parts := SplitN(key, 4); |parts| >= 3 && parts[0] == "households" && parts[2] == prefix
  {
    SplitAtSlash("households", household + "/" + (prefix + tail), 4);
    SplitAtSlash(household, prefix + tail, 3);
    HeadOf(prefix, tail);
  }

  lemma FirstPart(s: string, n: nat) returns (first: string, rest: string)
    requires n >= 2 && |SplitN(s, n)| >= 2
    ensures s == first + "/" + rest && '/' !in first && SplitN(s, n) == [first] + SplitN(rest, n - 1)
  {
    var i := SlashAt(s, 0);
    first, rest := s[0..i], s[i + 1..];
    assert s[..i] == first;
    assert s == s[..i] + [s[i]] + s[i + 1..];
  }

  lemma LastPart(s: string) returns (head: string, tail: string)
    ensures s == head + tail && (tail == "" || tail[0] == '/') && SplitN(s, 2)[0] == head
  {
    var i := SlashAt(s, 0);
    head, tail := s[..i], s[i..];
    assert i == |s| ==> head == s;
  }

  lemma JoinParts(key: Ref, rest: string, household: string, last: string, prefix: string, tail: string)
    requires key == "households" + "/" + rest && rest == household + "/" + last && last == prefix + tail
    requires '/' !in household && (tail == "" || tail[0] == '/')
    ensures HasParts(key, household, prefix, tail)
  {
  }

  lemma SplitIsFiled(key: Ref)
    requires |SplitN(key, 4)| >= 3 && SplitN(key, 4)[0] == "households"
    ensures IsFiledUnder(key, SplitN(key, 4)[2])
  {
    hide SplitN, HasParts;
    var first, rest := FirstPart(key, 4);
    var household, last := FirstPart(rest, 3);
    var prefix, tail := LastPart(last);
    JoinParts(key, rest, household, last, prefix, tail);
  }

  lemma FiledIff(key: Ref, prefix: string)
    requires '/' !in prefix
    ensures IsFiledUnder(key, prefix) <==>
              var parts := SplitN(key, 4); |parts| >= 3 && parts[0] == "households" && parts[2] == prefix
  {
    hide SplitN, HasParts;
    var parts := SplitN(key, 4);
    if |parts| >= 3 && parts[0] == "households" { SplitIsFiled(key); }
    if household, tail :| HasParts(key, household, prefix, tail) { FiledKeySplits(key, household, prefix, tail); }
  }

  /** A key's class is told by its third segment alone, and only under households/. */
  lemma ClassOfKeyIff(key: Ref)
    ensures ClassOfKey(key) == Some(Album) <==> IsFiledUnder(key, "photos")
    ensures ClassOfKey(key) == Some(ChoreProof) <==> IsFiledUnder(key, "chore-photos")
    ensures ClassOfKey(key) == Some(RewardImage) <==> IsFiledUnder(key, "reward-images")
    ensures ClassOfKey(key) != Some(Unspecified)
  {
    hide SplitN, IsFiledUnder;
    FiledIff(key, "photos");
    FiledIff(key, "chore-photos");
    FiledIff(key, "reward-images");
  }

  /** A built key is filed under its own class, and under no other. */
  lemma ClassOfBuiltKey(household: Uuid, photoClass: PhotoClass, sum: Digest, ext: string)
    requires photoClass != Unspecified
    ensures ClassOfKey(BuildStorageKey(household, photoClass, sum, ext).value) == Some(photoClass)
  {
    SegmentsOfKey(household, ClassKeyPrefix(photoClass).value, sum[..2] + "/" + (sum + "." + ext));
  }

  /** A fixed-width field is recovered from a separated pair. */
  lemma FieldsOfPair(x1: string, x2: string, separator: string, rest1: string, rest2: string)
    requires |x1| == |x2|
    requires x1 + separator + rest1 == x2 + separator + rest2
    ensures x1 == x2 && rest1 == rest2
  {
    var whole1, whole2 := x1 + separator + rest1, x2 + separator + rest2;
    assert whole1[..|x1|] == x1 && whole2[..|x2|] == x2;
    assert whole1[|x1| + |separator|..] == rest1 && whole2[|x2| + |separator|..] == rest2;
  }

  /** Equal keys name the same household, class, digest and extension: two different contents, or two
      different owners, can never meet at one key. */
  lemma BuiltKeysAreInjective(h1: Uuid, c1: PhotoClass, s1: Digest, e1: string, h2: Uuid, c2: PhotoClass, s2: Digest,
                              e2: string)
    requires c1 != Unspecified && c2 != Unspecified
    requires BuildStorageKey(h1, c1, s1, e1) == BuildStorageKey(h2, c2, s2, e2)
    ensures h1 == h2 && c1 == c2 && s1 == s2 && e1 == e2
  {
    ClassOfBuiltKey(h1, c1, s1, e1);
    ClassOfBuiltKey(h2, c2, s2, e2);
    var prefix := ClassKeyPrefix(c1).value;
    var name1, name2 := s1 + "." + e1, s2 + "." + e2;
    var file1, file2 := s1[..2] + "/" + name1, s2[..2] + "/" + name2;
    FieldsOfPair("households", "households", "/", h1 + "/" + (prefix + "/" + file1), h2 + "/" + (prefix + "/" + file2));
    FieldsOfPair(h1, h2, "/", prefix + "/" + file1, prefix + "/" + file2);
    FieldsOfPair(prefix, prefix, "/", file1, file2);
    FieldsOfPair(s1[..2], s2[..2], "/", name1, name2);
    FieldsOfPair(s1, s2, ".", e1, e2);
  }
}
