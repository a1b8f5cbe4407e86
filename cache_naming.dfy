/**
 * File names of the disk caches: `getFile(key, suffix)` in its three
 * spellings, and the data/header pairing of the two `UrlLoaderCache`
 * classes, which keep a URL's body and its headers in two files whose names
 * share the URL's MD5 name and differ in the suffix.
 */
module CacheNaming {
  import opened Common
  import opened Md5Hex

  /** An MD5 digest is always 16 bytes long. */
  type Digest = d: seq<byte> | |d| == 16 witness seq(16, _ => 0 as byte)

  /**
   * Kotlin `Char.isWhitespace()`: Java's `isWhitespace` or `isSpaceChar`.
   * The Unicode space, line and paragraph separators are listed by code point.
   */
  predicate IsWhitespace(c: char) {
    '\t' <= c <= '\r' || '\U{1C}' <= c <= ' ' ||
    c == '\U{A0}' || c == '\U{1680}' || '\U{2000}' <= c <= '\U{200A}' ||
    c == '\U{2028}' || c == '\U{2029}' || c == '\U{202F}' || c == '\U{205F}' || c == '\U{3000}'
  }

  /** Kotlin `isNullOrBlank()`. */
  predicate NullOrBlank(s: Option<string>) {
    s.None? || forall i :: 0 <= i < |s.value| ==> IsWhitespace(s.value[i])
  }

  /** `TextUtils.isEmpty`: null or of length zero. */
  predicate NullOrEmpty(s: Option<string>) {
    s.None? || s.value == ""
  }

  /** `FileLruCache.getFile`: the MD5 name followed by the suffix, with no separator. */
  function FileLruName(hex: string, suffix: Option<string>): string {
    hex + suffix.GetOr("")
  }

  /** `getFile` of both `DiskLruCache.java`: "." + suffix unless the suffix is empty. */
  function JavaName(hex: string, suffix: Option<string>): string {
    if NullOrEmpty(suffix) then hex else hex + "." + suffix.value
  }

  /** `DiskLruCacheEx.getFile`: "." + suffix unless the suffix is null or blank. */
  function KotlinExName(hex: string, suffix: Option<string>): string {
    if NullOrBlank(suffix) then hex else hex + "." + suffix.value
  }

  /**
   * The MD5 name is a fixed 32 characters, so every spelling can be split
   * back into the digest's name and what the suffix added.
   */
  lemma NamesSplit(hex: string, suffix: Option<string>)
    requires |hex| == 32
    ensures FileLruName(hex, suffix)[..32] == hex && FileLruName(hex, suffix)[32..] == suffix.GetOr("")
    ensures JavaName(hex, suffix)[..32] == hex
    ensures JavaName(hex, suffix)[32..] == if NullOrEmpty(suffix) then "" else "." + suffix.value
    ensures KotlinExName(hex, suffix)[..32] == hex
    ensures KotlinExName(hex, suffix)[32..] == if NullOrBlank(suffix) then "" else "." + suffix.value
  {
    if !NullOrEmpty(suffix) {
      assert JavaName(hex, suffix) == hex + ("." + suffix.value);
    }
    if !NullOrBlank(suffix) {
      assert KotlinExName(hex, suffix) == hex + ("." + suffix.value);
    }
  }

  /**
   * The Java and the Kotlin spellings differ only on a blank, non-empty
   * suffix: Java appends it, Kotlin does not.
   */
  lemma SpellingsDifferOnBlank(hex: string, suffix: Option<string>)
    ensures JavaName(hex, suffix) != KotlinExName(hex, suffix) <==>
            (suffix.Some? && suffix.value != "" && NullOrBlank(suffix))
  {
    if suffix.Some? && suffix.value != "" && NullOrBlank(suffix) {
      assert |JavaName(hex, suffix)| > |hex|;
    }
  }

  // ------------------------------------------------------------ UrlLoaderCache

  /**
   * The suffixes of one `UrlLoaderCache`, and whether its base class spells
   * `getFile` with a "." (the library package) or without (the urlloader one).
   */
  datatype Pairing = Pairing(suffixData: string, suffixHeader: string, dotted: bool)

  /**
   * The urlloader `UrlLoaderCache`: each suffix is the last 8 characters of
   * the MD5 name of a string seeded with the cache path; the two digests are
   * inputs.
   */
  function SeededPairing(dataDigest: Digest, headerDigest: Digest): Pairing {
    Pairing(TakeLast(PaddedHex(dataDigest), 8), TakeLast(PaddedHex(headerDigest), 8), false)
  }

  /** The library `UrlLoaderCache`: fixed suffixes. */
  const LibraryPairing := Pairing("6aef4_d", "6aef4_h", true)

  /** The seeded suffixes are 8 lowercase hex digits each. */
  lemma SeededSuffixes(dataDigest: Digest, headerDigest: Digest)
    ensures |SeededPairing(dataDigest, headerDigest).suffixData| == 8
    ensures |SeededPairing(dataDigest, headerDigest).suffixHeader| == 8
    ensures forall i :: 0 <= i < 8 ==> IsLowerHex(SeededPairing(dataDigest, headerDigest).suffixData[i])
    ensures forall i :: 0 <= i < 8 ==> IsLowerHex(SeededPairing(dataDigest, headerDigest).suffixHeader[i])
  {
    SpellingsAgree(dataDigest);
    SpellingsAgree(headerDigest);
    PerByteShape(dataDigest);
    PerByteShape(headerDigest);
    var s := PaddedHex(dataDigest);
    forall i | 0 <= i < 8 ensures IsLowerHex(TakeLast(s, 8)[i]) {
      assert TakeLast(s, 8)[i] == s[24 + i];
    }
    var t := PaddedHex(headerDigest);
    forall i | 0 <= i < 8 ensures IsLowerHex(TakeLast(t, 8)[i]) {
      assert TakeLast(t, 8)[i] == t[24 + i];
    }
  }

  /** `getFile(url, suffix)` of the cache's base class. */
  function Named(p: Pairing, hex: string, suffix: string): string {
    if p.dotted then JavaName(hex, Some(suffix)) else FileLruName(hex, Some(suffix))
  }

  /** `getDataCache(url)`, given the MD5 name of the url. */
  function DataName(p: Pairing, hex: string): string {
    Named(p, hex, p.suffixData)
  }

  /** `getHeaderCache(url)`, given the MD5 name of the url. */
  function HeaderName(p: Pairing, hex: string): string {
    Named(p, hex, p.suffixHeader)
  }

  /** `accept`: only data files are tracked ("." + suffix in the library class). */
  predicate Accepts(p: Pairing, name: Option<string>) {
    name.Some? && EndsWith(name.value, (if p.dotted then "." else "") + p.suffixData)
  }

  /** `findHeaderCache`: drop the data suffix's length, append the header suffix. */
  function FindHeader(p: Pairing, dataName: string): string {
    DropLast(dataName, |p.suffixData|) + p.suffixHeader
  }

  /** `sizeOf(file)`: data plus header length, narrowed to a 32-bit `int`. */
  function PairSize(dataLen: nat, headerLen: nat): (r: int)
    ensures dataLen + headerLen < 0x8000_0000 ==> r == dataLen + headerLen
  {
    ToInt32(dataLen + headerLen)
  }

  /** `onDelete`: the files it deletes, header first, then data. */
  function PairDeletes(p: Pairing, dataName: string): seq<string> {
    [FindHeader(p, dataName), dataName]
  }

  /** The suffix conditions both classes meet: the library's suffixes are not empty. */
  predicate WellFormed(p: Pairing) {
    p.dotted ==> p.suffixData != "" && p.suffixHeader != ""
  }

  /**
   * Both pairings meet the suffix conditions. The library's two suffixes are
   * of one length and differ; whether the seeded ones differ depends on the
   * two digests, so `HeaderIgnored` takes that as a precondition.
   */
  lemma PairingsWellFormed(dataDigest: Digest, headerDigest: Digest)
    ensures WellFormed(LibraryPairing)
    ensures WellFormed(SeededPairing(dataDigest, headerDigest))
    ensures |LibraryPairing.suffixData| == |LibraryPairing.suffixHeader|
    ensures LibraryPairing.suffixData != LibraryPairing.suffixHeader
  {
    assert LibraryPairing.suffixData[6] != LibraryPairing.suffixHeader[6];
  }

  /** `findHeaderCache(getDataCache(u)) == getHeaderCache(u)`. */
  lemma HeaderOfData(p: Pairing, hex: string)
    requires WellFormed(p)
    ensures FindHeader(p, DataName(p, hex)) == HeaderName(p, hex)
  {
    if p.dotted {
      assert DataName(p, hex) == (hex + ".") + p.suffixData;
      assert DropLast(DataName(p, hex), |p.suffixData|) == hex + ".";
    } else {
      assert DropLast(DataName(p, hex), |p.suffixData|) == hex;
    }
  }

  /** Every data file is accepted, so it becomes a tracked entry. */
  lemma DataAccepted(p: Pairing, hex: string)
    requires WellFormed(p)
    ensures Accepts(p, Some(DataName(p, hex)))
  {
    if p.dotted {
      assert DataName(p, hex) == hex + ("." + p.suffixData);
    }
  }

  /**
   * A header file is never accepted, so it is never an entry of its own: it
   * is charged to its data file. For the seeded suffixes this needs the two
   * 8-digit suffixes to differ.
   */
  lemma HeaderIgnored(p: Pairing, hex: string)
    requires WellFormed(p)
    requires p == LibraryPairing || (|p.suffixData| == |p.suffixHeader| && p.suffixData != p.suffixHeader && !p.dotted)
    ensures !Accepts(p, Some(HeaderName(p, hex)))
  {
    var h := HeaderName(p, hex);
    if p == LibraryPairing {
      assert h == hex + ".6aef4_h";
      assert h[|h| - 1] == 'h';
    } else {
      assert h[|h| - |p.suffixHeader|..] == p.suffixHeader;
    }
  }
}
