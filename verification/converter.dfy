/**
  The MP3-to-WAV step of the audio pipeline. The transcoding itself is done by
  an external ffmpeg binary and is represented here only by whether it
  succeeded; what is modelled is the output file name, which is derived from
  the uploaded name by Python's `str.replace`, turning ".mp3" into ".wav".
*/
module Converter {
  import opened PyStrings

  datatype Option<T> = None | Some(value: T)

  const Mp3Suffix: string := ".mp3"
  const WavSuffix: string := ".wav"

  /** The name `convert_mp3_to_wav` writes the WAV file under: every
      non-overlapping ".mp3" in the uploaded name becomes ".wav". */
  function WavFileName(mp3File: string): (wavFile: string)
    ensures |wavFile| == |mp3File|
  {
    Replace(mp3File, Mp3Suffix, WavSuffix)
  }

  /** `convert_mp3_to_wav`: the derived name when ffmpeg succeeds, `None` when
      it raises (any exception is caught and turned into `None`). */
  function ConvertMp3ToWav(mp3File: string, transcodeSucceeds: bool): (r: Option<string>)
    ensures r.Some? <==> transcodeSucceeds
    ensures r.Some? ==> r.value == WavFileName(mp3File)
    ensures r.Some? ==> |r.value| == |mp3File|
    ensures r.Some? ==> forall i :: !OccursAt(r.value, Mp3Suffix, i)
  {
    if transcodeSucceeds then
      WavNameHasNoMp3(mp3File);
      Some(WavFileName(mp3File))
    else None
  }

  /** ".mp3" occurs at `i` of `t`, character by character. */
  lemma Mp3At(t: string, i: int)
    ensures OccursAt(t, Mp3Suffix, i) <==>
      0 <= i && i + 4 <= |t| && t[i] == '.' && t[i + 1] == 'm' && t[i + 2] == 'p' && t[i + 3] == '3'
  {
    if 0 <= i && i + 4 <= |t| {
      assert t[i..i + 4] == [t[i], t[i + 1], t[i + 2], t[i + 3]];
    }
  }

  /** One step of the left-to-right scan behind the derived name. */
  lemma WavNameStep(s: string)
    requires |s| >= 4
    ensures s[..4] == Mp3Suffix ==> WavFileName(s) == WavSuffix + WavFileName(s[4..])
    ensures s[..4] != Mp3Suffix ==> WavFileName(s) == [s[0]] + WavFileName(s[1..])
  {
  }

  /** The derived name starts with the same character as the uploaded one
      (both suffixes start with '.'). */
  lemma WavNameFirstChar(s: string)
    requires s != []
    ensures WavFileName(s)[0] == s[0]
  {
    if |s| >= 4 {
      WavNameStep(s);
    }
  }

  /** A name that does not start with '.' cannot start with ".mp3", so the
      derivation keeps its first character and carries on with the rest. */
  lemma WavNameNoDotHead(s: string)
    requires s != [] && s[0] != '.'
    ensures WavFileName(s) == [s[0]] + WavFileName(s[1..])
  {
    if |s| < |Mp3Suffix| {
      ReplaceAbsent(s[1..], Mp3Suffix, WavSuffix);
    } else {
      WavNameStep(s);
    }
  }

  /** The replacement ".wav" never leaves ".mp3" behind: the derived name
      contains no ".mp3" anywhere. */
  lemma {:induction false} WavNameHasNoMp3(s: string)
    ensures forall i :: !OccursAt(WavFileName(s), Mp3Suffix, i)
    decreases |s|
  {
    var w := WavFileName(s);
    if |s| < |Mp3Suffix| {
      assert w == s;
    } else if s[..4] == Mp3Suffix {
      var rest := WavFileName(s[4..]);
      WavNameHasNoMp3(s[4..]);
      WavNameStep(s);
      assert w[..4] == WavSuffix && w[4..] == rest;
      assert w[0] == '.' && w[1] == 'w' && w[2] == 'a' && w[3] == 'v';
      forall i ensures !OccursAt(w, Mp3Suffix, i) {
        Mp3At(w, i);
        if 4 <= i <= |w| - 4 {
          Mp3At(rest, i - 4);
          assert w[i] == rest[i - 4] && w[i + 1] == rest[i - 3];
          assert w[i + 2] == rest[i - 2] && w[i + 3] == rest[i - 1];
        }
      }
    } else {
      var rest := WavFileName(s[1..]);
      WavNameHasNoMp3(s[1..]);
      WavNameStep(s);
      assert w[1..] == rest;
      forall i ensures !OccursAt(w, Mp3Suffix, i) {
        if 1 <= i <= |w| - 4 {
          Mp3At(w, i);
          Mp3At(rest, i - 1);
          assert w[i] == rest[i - 1] && w[i + 1] == rest[i];
          assert w[i + 2] == rest[i + 1] && w[i + 3] == rest[i + 2];
        } else if i == 0 {
          HeadNotMp3(s);
        }
      }
    }
  }

  /** When `s` does not start with ".mp3", neither does its derived name. */
  lemma HeadNotMp3(s: string)
    requires |s| >= 4 && s[..4] != Mp3Suffix
    ensures !OccursAt(WavFileName(s), Mp3Suffix, 0)
  {
    var w := WavFileName(s);
    Mp3At(s, 0);
    WavNameFirstChar(s);
    if s[0] == '.' {
      WavNameStep(s);
      WavNameFirstChar(s[1..]);
      if s[1] == 'm' {
        WavNameNoDotHead(s[1..]);
        assert s[1..][1..] == s[2..];
        WavNameFirstChar(s[2..]);
        if s[2] == 'p' {
          WavNameNoDotHead(s[2..]);
          assert s[2..][1..] == s[3..];
          WavNameFirstChar(s[3..]);
          assert w[3] == s[3] != '3';
        }
      }
    }
    Mp3At(w, 0);
  }

  /** Every ".mp3" of the uploaded name reads ".wav" at the same position in
      the derived name. */
  lemma {:induction false} WavNameReplacesEach(s: string, i: int)
    requires OccursAt(s, Mp3Suffix, i)
    ensures OccursAt(WavFileName(s), WavSuffix, i)
    decreases |s|
  {
    var w := WavFileName(s);
    WavNameStep(s);
    Mp3At(s, i);
    Mp3At(s, 0);
    WavAt(w, i);
    if s[..4] == Mp3Suffix {
      var rest := WavFileName(s[4..]);
      assert w[..4] == WavSuffix && w[4..] == rest;
      if i >= 4 {
        Mp3At(s[4..], i - 4);
        WavNameReplacesEach(s[4..], i - 4);
        WavAt(rest, i - 4);
        assert w[i] == rest[i - 4] && w[i + 1] == rest[i - 3];
        assert w[i + 2] == rest[i - 2] && w[i + 3] == rest[i - 1];
      } else {
        WavAt(w, 0);
      }
    } else {
      var rest := WavFileName(s[1..]);
      assert w[1..] == rest;
      Mp3At(s[1..], i - 1);
      WavNameReplacesEach(s[1..], i - 1);
      WavAt(rest, i - 1);
      assert w[i] == rest[i - 1] && w[i + 1] == rest[i];
      assert w[i + 2] == rest[i + 1] && w[i + 3] == rest[i + 2];
    }
  }

  /** ".wav" occurs at `i` of `t`, character by character. */
  lemma WavAt(t: string, i: int)
    ensures OccursAt(t, WavSuffix, i) <==>
      0 <= i && i + 4 <= |t| && t[i] == '.' && t[i + 1] == 'w' && t[i + 2] == 'a' && t[i + 3] == 'v'
  {
    if 0 <= i && i + 4 <= |t| {
      assert t[i..i + 4] == [t[i], t[i + 1], t[i + 2], t[i + 3]];
    }
  }

  /** `j` lies inside some occurrence of ".mp3" in `s`. */
  predicate InMp3(s: string, j: int) {
    exists i :: i <= j < i + 4 && OccursAt(s, Mp3Suffix, i)
  }

  /** A character of the uploaded name outside every ".mp3" is copied to the
      same position of the derived name. */
  lemma {:induction false} WavNameKeepsOthers(s: string, j: int)
    requires 0 <= j < |s| && !InMp3(s, j)
    ensures WavFileName(s)[j] == s[j]
    decreases |s|
  {
    var w := WavFileName(s);
    if |s| < 4 {
    } else if s[..4] == Mp3Suffix {
      assert OccursAt(s, Mp3Suffix, 0);
      assert j >= 4;
      if InMp3(s[4..], j - 4) {
        var i :| i <= j - 4 < i + 4 && OccursAt(s[4..], Mp3Suffix, i);
        assert s[i + 4..i + 8] == s[4..][i..i + 4];
        assert OccursAt(s, Mp3Suffix, i + 4);
      }
      WavNameKeepsOthers(s[4..], j - 4);
      assert w == WavSuffix + WavFileName(s[4..]);
    } else if j == 0 {
    } else {
      if InMp3(s[1..], j - 1) {
        var i :| i <= j - 1 < i + 4 && OccursAt(s[1..], Mp3Suffix, i);
        assert s[i + 1..i + 5] == s[1..][i..i + 4];
        assert OccursAt(s, Mp3Suffix, i + 1);
      }
      WavNameKeepsOthers(s[1..], j - 1);
      assert w == [s[0]] + WavFileName(s[1..]);
    }
  }

  /** The derived name differs from the uploaded one exactly when the
      uploaded name contains ".mp3"; otherwise ffmpeg is asked to write the
      WAV file over its own input. */
  lemma WavNameDiffers(s: string)
    ensures WavFileName(s) != s <==> exists i :: OccursAt(s, Mp3Suffix, i)
  {
    if i :| OccursAt(s, Mp3Suffix, i) {
      WavNameReplacesEach(s, i);
      assert WavFileName(s)[i + 1] == 'w' && s[i + 1] == 'm';
    } else {
      ReplaceAbsent(s, Mp3Suffix, WavSuffix);
    }
  }

  /** The usual upload, "name.mp3" with no other ".mp3" in it, becomes
      "name.wav". */
  lemma WavNameOfMp3File(base: string)
    requires forall i :: !OccursAt(base, Mp3Suffix, i)
    ensures WavFileName(base + Mp3Suffix) == base + WavSuffix
  {
    var s := base + Mp3Suffix;
    var w := WavFileName(s);
    var n := |base|;
    assert s[n..n + 4] == Mp3Suffix;
    WavNameReplacesEach(s, n);
    forall i | i < n ensures !OccursAt(s, Mp3Suffix, i) {
      Mp3At(s, i);
      if 0 <= i && i + 4 <= n {
        Mp3At(base, i);
        assert s[i..i + 4] == base[i..i + 4];
      } else if 0 <= i < n {
        Mp3At(s, n);
        assert n - i == 1 || n - i == 2 || n - i == 3;
      }
    }
    forall j | 0 <= j < n ensures w[j] == s[j] {
      WavNameKeepsOthers(s, j);
    }
    assert w == base + WavSuffix;
  }
}
