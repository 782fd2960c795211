/**
 * The name of the debug image saved with each logged reading: the capture
 * timestamp with ':' and ' ' turned into '_', under the debug directory,
 * with the PNG extension.
 */
module DebugImage {

  const Directory: string := "debug/"
  const Extension: string := ".png"

  /** Python's str.replace for single characters: every occurrence of from becomes to. */
  function ReplaceChar(s: string, from: char, to: char): (r: string)
    ensures |r| == |s|
    ensures forall k :: 0 <= k < |s| ==> r[k] == if s[k] == from then to else s[k]
  {
    if s == [] then []
    else [if s[0] == from then to else s[0]] + ReplaceChar(s[1..], from, to)
  }

  /** The timestamp with its colons, then its spaces, replaced by underscores. */
  function SafeTimestamp(timestamp: string): string {
    ReplaceChar(ReplaceChar(timestamp, ':', '_'), ' ', '_')
  }

  /** The path of the debug image saved for a row logged at the given timestamp. */
  function ImageName(timestamp: string): string {
    Directory + SafeTimestamp(timestamp) + Extension
  }

  /** The part of an image name between the directory and the extension. */
  function Stem(name: string): string
    requires |name| >= |Directory| + |Extension|
  {
    name[|Directory|..|name| - |Extension|]
  }

  /**
   * The name is the directory, a stem as long as the timestamp, and the
   * extension; the stem holds no ':' and no ' ', and keeps every other
   * character of the timestamp where it was.
   */
  lemma {:induction false} ImageNameShape(timestamp: string)
    ensures |ImageName(timestamp)| == |Directory| + |timestamp| + |Extension|
    ensures ImageName(timestamp)[..|Directory|] == Directory
    ensures ImageName(timestamp)[|Directory| + |timestamp|..] == Extension
    ensures |Stem(ImageName(timestamp))| == |timestamp|
    ensures ':' !in Stem(ImageName(timestamp)) && ' ' !in Stem(ImageName(timestamp))
    ensures forall k :: 0 <= k < |timestamp| ==>
      Stem(ImageName(timestamp))[k] == if timestamp[k] == ':' || timestamp[k] == ' ' then '_' else timestamp[k]
  {
    var name := ImageName(timestamp);
    var safe := SafeTimestamp(timestamp);
    assert name == Directory + safe + Extension;
    assert Stem(name) == safe;
  }

  /** A timestamp written with strftime('%Y-%m-%d %H:%M:%S'). */
  predicate IsTimestamp(timestamp: string) {
    && |timestamp| == 19
    && (forall k :: 0 <= k < 19 && k !in {4, 7, 10, 13, 16} ==> '0' <= timestamp[k] <= '9')
    && timestamp[4] == '-' && timestamp[7] == '-'
    && timestamp[10] == ' '
    && timestamp[13] == ':' && timestamp[16] == ':'
  }

  /** Different timestamps in the logged format give different image names: an image is only overwritten by one captured in the same second. */
  lemma ImageNameInjective(a: string, b: string)
    requires IsTimestamp(a) && IsTimestamp(b)
    requires ImageName(a) == ImageName(b)
    ensures a == b
  {
    ImageNameShape(a);
    ImageNameShape(b);
    forall k | 0 <= k < 19 ensures a[k] == b[k] {
      assert Stem(ImageName(a))[k] == Stem(ImageName(b))[k];
    }
  }
}
