/** The pure byte transforms behind the Edison sample's device-metadata readers.

`get_firmware_version` and `get_serial_number` read a whole file into a buffer,
overwrite its last byte with the C string terminator, and hand the buffer out as a
C string; the firmware version is further cut at its first '@'. The file reading
itself is I/O and is not modelled: these functions take the file contents.
 */
module Firmware {

  newtype Byte = b: int | 0 <= b < 256

  /** The C string terminator. */
  const Nul: Byte := 0

  /** The character '@' that separates the version from the build suffix. */
  const At: Byte := 64

  /** What opening and reading a metadata file yields. */
  datatype FileRead = Missing | Contents(bytes: seq<Byte>)

  /** The longest prefix of `s` that holds no byte of `stops`: the scan `strchr` and
      the C string length both perform. */
  function PrefixBefore(s: seq<Byte>, stops: set<Byte>): (r: seq<Byte>)
    ensures r <= s
    ensures forall i :: 0 <= i < |r| ==> r[i] !in stops
    ensures |r| < |s| ==> s[|r|] in stops
    decreases |s|
  {
    if |s| == 0 || s[0] in stops then [] else [s[0]] + PrefixBefore(s[1..], stops)
  }

  /** The bytes a C string stored in `buffer` denotes: those before the first terminator. */
  function CString(buffer: seq<Byte>): (r: seq<Byte>)
    ensures r <= buffer && Nul !in r
    ensures |r| < |buffer| ==> buffer[|r|] == Nul
  {
    PrefixBefore(buffer, {Nul})
  }

  /** The buffer once its last byte (normally the file's trailing newline) has been
      overwritten by the terminator, read as a C string. */
  function DropLastByte(contents: seq<Byte>): (r: seq<Byte>)
    requires |contents| > 0
    ensures r <= contents && |r| < |contents|
    ensures Nul !in r
    ensures |r| == |contents| - 1 || contents[|r|] == Nul
  {
    CString(contents[..|contents| - 1])
  }

  /** The serial number read from non-empty file contents. */
  function SerialNumber(contents: seq<Byte>): (r: seq<Byte>)
    requires |contents| > 0
    ensures r <= contents && |r| < |contents| && Nul !in r
    ensures |r| == |contents| - 1 || contents[|r|] == Nul
  {
    DropLastByte(contents)
  }

  /** The firmware version read from non-empty file contents: the last byte dropped,
      then the string cut before its first '@'. */
  function FirmwareVersion(contents: seq<Byte>): (v: seq<Byte>)
    requires |contents| > 0
    ensures v <= contents && |v| < |contents|
    ensures At !in v && Nul !in v
    ensures |v| == |contents| - 1 || contents[|v|] == At || contents[|v|] == Nul
  {
    var str := DropLastByte(contents);
    PrefixBefore(str, {At})
  }

  /** The firmware version reader with its fallback: a missing file gives the empty string. */
  function ReadFirmwareVersion(file: FileRead): (v: seq<Byte>)
    requires file.Contents? ==> |file.bytes| > 0
    ensures file.Missing? ==> v == []
    ensures file.Contents? ==> v <= file.bytes && At !in v && Nul !in v
    ensures file.Contents? ==> |v| < |file.bytes|
    ensures file.Contents? ==>
              |v| == |file.bytes| - 1 || file.bytes[|v|] == At || file.bytes[|v|] == Nul
  {
    match file
    case Missing => []
    case Contents(bytes) => FirmwareVersion(bytes)
  }

  /** The longest prefix avoiding a set of bytes is unique. */
  lemma PrefixBeforeUnique(s: seq<Byte>, stops: set<Byte>, p: seq<Byte>)
    requires p <= s
    requires forall i :: 0 <= i < |p| ==> p[i] !in stops
    requires |p| < |s| ==> s[|p|] in stops
    ensures p == PrefixBefore(s, stops)
  {
  }

  /** The two-step firmware transform (terminate, then cut at '@') is the single cut of
      the contents minus their last byte at the first terminator or '@'. */
  lemma FirmwareVersionIsOneCut(contents: seq<Byte>)
    requires |contents| > 0
    ensures FirmwareVersion(contents) == PrefixBefore(contents[..|contents| - 1], {Nul, At})
  {
  }

  /** The version is the whole of the contents minus their last byte exactly when that
      part holds neither '@' nor a terminator. */
  lemma FirmwareVersionKeepsPlainBody(contents: seq<Byte>)
    requires |contents| > 0
    ensures FirmwareVersion(contents) == contents[..|contents| - 1]
            <==> At !in contents[..|contents| - 1] && Nul !in contents[..|contents| - 1]
  {
  }

  /** A version that holds an '@' and no terminator before it keeps exactly the part
      before the first '@'. */
  lemma FirmwareVersionStopsAtFirstAt(contents: seq<Byte>, i: nat)
    requires i < |contents| - 1 && contents[i] == At
    requires forall j :: 0 <= j < i ==> contents[j] != At && contents[j] != Nul
    ensures FirmwareVersion(contents) == contents[..i]
  {
  }
}
