/** Uploaded files as the handlers see them (`req.files`), the two size limits, and the
    name under which an upload is stored in the uploads directory. */
module Uploads {
  import opened Http
  import opened Text

  /** One uploaded file: its original name and its size in bytes. */
  datatype Upload = Upload(name: string, size: nat)

  /** `req.files`: NoFiles when the request carried no file at all (`req.files` is
      undefined); otherwise the file under the field name the handler reads
      (`thumbanail` or `avatar`), None when that field is absent. */
  datatype Files = NoFiles | Files(field: Option<Upload>)

  /** Largest accepted post thumbnail, in bytes. */
  const ThumbnailLimit: nat := 2000000

  /** Largest accepted avatar, in bytes. */
  const AvatarLimit: nat := 500000

  /** The size check `file.size > limit`: a file of exactly `limit` bytes passes. */
  predicate TooBig(u: Upload, limit: nat) {
    u.size > limit
  }

  /** `name.split('.')[0]`: the text before the first dot. */
  function Base(name: string): string {
    Split(name, '.')[0]
  }

  /** `name.split('.')[length - 1]`: the text after the last dot, or the whole
      name when it has no dot. */
  function Extension(name: string): string {
    Last(Split(name, '.'))
  }

  /** The stored file name: base, the caller-supplied unique suffix, a dot and the extension. */
  function StoredName(name: string, uuid: string): string {
    Base(name) + uuid + "." + Extension(name)
  }

  /** The base is the longest dot-free prefix and the extension the longest dot-free
      suffix of the original name. */
  lemma BaseAndExtension(name: string)
    ensures |Base(name)| <= |name| && Base(name) == name[..|Base(name)|]
    ensures '.' !in Base(name)
    ensures |Base(name)| == |name| || name[|Base(name)|] == '.'
    ensures |Extension(name)| <= |name| && Extension(name) == name[|name| - |Extension(name)|..]
    ensures '.' !in Extension(name)
    ensures |Extension(name)| == |name| || name[|name| - |Extension(name)| - 1] == '.'
  {
    FirstPiece(name, '.');
    LastPiece(name, '.');
  }

  /** A name without a dot is both its own base and its own extension, so
      `photo` is stored as `photo<uuid>.photo`. */
  lemma StoredNameWithoutDot(name: string, uuid: string)
    requires '.' !in name
    ensures StoredName(name, uuid) == name + uuid + "." + name
  {
    SplitWithoutSep(name, '.');
  }

  /** Inner dots are dropped: `a.b.png` is stored as `a<uuid>.png`. */
  lemma StoredNameOfDottedName(uuid: string)
    ensures StoredName("a.b.png", uuid) == "a" + uuid + ".png"
  {
    var parts := ["a", "b", "png"];
    assert Join(parts, '.') == "a.b.png";
    SplitJoin(parts, '.');
  }

  /** With a dot-free suffix, the stored name has exactly one dot: splitting it gives
      the base followed by the suffix, then the original extension. */
  lemma StoredNameSplit(name: string, uuid: string)
    requires '.' !in uuid
    ensures Split(StoredName(name, uuid), '.') == [Base(name) + uuid, Extension(name)]
  {
    BaseAndExtension(name);
    var parts := [Base(name) + uuid, Extension(name)];
    assert Join(parts, '.') == StoredName(name, uuid);
    SplitJoin(parts, '.');
  }

  /** Distinct suffixes give distinct stored names for the same upload, which is
      what keeps two uploads of one file from overwriting each other. */
  lemma StoredNameInjective(name: string, u1: string, u2: string)
    requires StoredName(name, u1) == StoredName(name, u2)
    ensures u1 == u2
  {
    var b, e := Base(name), "." + Extension(name);
    var s1, s2 := StoredName(name, u1), StoredName(name, u2);
    assert s1 == b + u1 + e && s2 == b + u2 + e;
    assert |u1| == |u2|;
    assert u1 == s1[|b|..|b| + |u1|];
    assert u2 == s2[|b|..|b| + |u2|];
  }
}
