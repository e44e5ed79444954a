/**
 Strings of 8-bit characters and the bytes they are.
 */
module ByteStrings {
  import opened DiskLayout

  // A NUL-terminated string of 8-bit characters
  predicate CName(s: string) { forall i :: 0 <= i < |s| ==> 0 < s[i] as int < 256 }

  // Characters of RamFS as bytes of DiskFS
  function ToBytes(s: string): (b: seq<Byte>)
    ensures |b| == |s|
  {
    seq(|s|, i requires 0 <= i < |s| => s[i] as int % 256)
  }

  function ToChars(b: seq<Byte>): (s: string)
    ensures |s| == |b| && forall i :: 0 <= i < |s| ==> s[i] as int == b[i]
  {
    seq(|b|, i requires 0 <= i < |b| => b[i] as char)
  }

  lemma CharsOfBytes(s: string)
    requires CName(s)
    ensures ToChars(ToBytes(s)) == s && 0 !in ToBytes(s)
  {
    forall i | 0 <= i < |s| ensures ToChars(ToBytes(s))[i] == s[i] && ToBytes(s)[i] != 0 {
      assert s[i] as int < 256;
    }
  }

  // The name in a NUL-terminated field is a C string.
  lemma FieldName(b: seq<Byte>)
    ensures CName(ToChars(CStr(b)))
  {
    forall i | 0 <= i < |CStr(b)| ensures CStr(b)[i] != 0 {
      assert CStr(b)[i] in CStr(b);
    }
  }
}
