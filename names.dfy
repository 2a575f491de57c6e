/** The file-name filter shared by the upload and listing endpoints:
    a name is accepted when its lower-cased form ends in ".mp3" or ".wav". */
module Names {

  const Mp3Extension: string := ".mp3"
  const WavExtension: string := ".wav"

  predicate IsUpperAscii(c: char) {
    'A' <= c <= 'Z'
  }

  /** ASCII lower-casing of one character: upper-case letters move to the
      lower-case block, every other character stays as it is. */
  function LowerChar(c: char): (r: char)
    ensures !IsUpperAscii(r)
    ensures IsUpperAscii(c) ==> 'a' <= r <= 'z' && r as int - c as int == 'a' as int - 'A' as int
    ensures !IsUpperAscii(c) ==> r == c
  {
    if IsUpperAscii(c) then (c as int - 'A' as int + 'a' as int) as char else c
  }

  /** Lower-cased copy of a string, character by character. */
  function Lower(s: string): (r: string)
    ensures |r| == |s|
    ensures forall i :: 0 <= i < |r| ==> !IsUpperAscii(r[i])
  {
    seq(|s|, i requires 0 <= i < |s| => LowerChar(s[i]))
  }

  predicate EndsWith(s: string, suffix: string) {
    |suffix| <= |s| && s[|s| - |suffix|..] == suffix
  }

  /** The extension check of the upload and listing endpoints. */
  predicate IsAllowed(name: string) {
    var lowered := Lower(name);
    EndsWith(lowered, Mp3Extension) || EndsWith(lowered, WavExtension)
  }

  /** Lower-casing commutes with slicing. */
  lemma LowerSlice(s: string, i: nat, j: nat)
    requires i <= j <= |s|
    ensures Lower(s[i..j]) == Lower(s)[i..j]
  {
  }

  /** Lower-casing distributes over concatenation. */
  lemma LowerAppend(a: string, b: string)
    ensures Lower(a + b) == Lower(a) + Lower(b)
  {
    var l, r := Lower(a + b), Lower(a) + Lower(b);
    assert |l| == |r|;
    forall i | 0 <= i < |l| ensures l[i] == r[i] {
      if i < |a| {
        assert (a + b)[i] == a[i];
      } else {
        assert (a + b)[i] == b[i - |a|];
      }
    }
  }

  /** Lower-casing twice is lower-casing once. */
  lemma LowerIdempotent(s: string)
    ensures Lower(Lower(s)) == Lower(s)
  {
  }

  /** An independent reading of the check: the last four characters, lower-cased,
      are exactly ".mp3" or ".wav" (both extensions have four characters). */
  lemma IsAllowedByLastFour(name: string)
    ensures IsAllowed(name) <==>
      |name| >= 4 && (Lower(name[|name| - 4..]) == Mp3Extension || Lower(name[|name| - 4..]) == WavExtension)
  {
    if |name| >= 4 {
      LowerSlice(name, |name| - 4, |name|);
    }
  }

  /** Any stem followed by any casing of ".mp3" or ".wav" is accepted. */
  lemma AcceptsEveryCasing(stem: string, ext: string)
    requires Lower(ext) == Mp3Extension || Lower(ext) == WavExtension
    ensures IsAllowed(stem + ext)
  {
    LowerAppend(stem, ext);
    var lowered := Lower(stem + ext);
    assert lowered[|lowered| - |ext|..] == Lower(ext);
  }

  /** The check ignores case: two names that agree once lower-cased are both
      accepted or both rejected. */
  lemma CaseInsensitive(a: string, b: string)
    requires |a| == |b|
    requires forall i :: 0 <= i < |a| ==> LowerChar(a[i]) == LowerChar(b[i])
    ensures IsAllowed(a) <==> IsAllowed(b)
  {
    assert Lower(a) == Lower(b);
  }

  /** Lower-casing a name first does not change the verdict. */
  lemma IsAllowedOfLower(name: string)
    ensures IsAllowed(Lower(name)) <==> IsAllowed(name)
  {
    LowerIdempotent(name);
  }

  /** A reference definition of the check written on characters: a dot, then
      "mp3" or "wav" in any casing, as the last four characters. */
  predicate EndsWithAudioExtension(name: string) {
    |name| >= 4 && name[|name| - 4] == '.' &&
    var a, b, c := LowerChar(name[|name| - 3]), LowerChar(name[|name| - 2]), LowerChar(name[|name| - 1]);
    (a == 'm' && b == 'p' && c == '3') || (a == 'w' && b == 'a' && c == 'v')
  }

  /** The check agrees with the character-level reference definition. */
  lemma IsAllowedIffAudioExtension(name: string)
    ensures IsAllowed(name) <==> EndsWithAudioExtension(name)
  {
    IsAllowedByLastFour(name);
    if |name| >= 4 {
      var tail := Lower(name[|name| - 4..]);
      assert tail == [tail[0], tail[1], tail[2], tail[3]];
    }
  }

  /** Accepted: every casing of the extension, and a bare extension with an
      empty stem. */
  lemma AcceptedExamples()
    ensures IsAllowed("A.MP3") && IsAllowed("b.Wav") && IsAllowed("c.mp3")
    ensures IsAllowed(".mp3") && IsAllowed(".WAV")
  {
    IsAllowedIffAudioExtension("A.MP3");
    IsAllowedIffAudioExtension("b.Wav");
    IsAllowedIffAudioExtension("c.mp3");
    IsAllowedIffAudioExtension(".mp3");
    IsAllowedIffAudioExtension(".WAV");
  }

  /** Rejected: another extension, an extension without its dot, an accepted
      extension that is not at the end, and the empty name. */
  lemma RejectedExamples()
    ensures !IsAllowed("song.txt") && !IsAllowed("mp3") && !IsAllowed("x.mp3.txt")
    ensures !IsAllowed("a.mp4") && !IsAllowed("")
  {
    IsAllowedIffAudioExtension("song.txt");
    IsAllowedIffAudioExtension("mp3");
    IsAllowedIffAudioExtension("x.mp3.txt");
    IsAllowedIffAudioExtension("a.mp4");
    IsAllowedIffAudioExtension("");
  }
}
