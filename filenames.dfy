/**
 * File names in the downloader: which files are taken as movies (the
 * extension test of the directory walk) and where a movie's subtitle is
 * written (os.path.splitext and os.path.join on POSIX).
 */
module FileNames {

  /** str.lower on one character (ASCII letters only). */
  function LowerChar(ch: char): char
  {
    if 'A' <= ch <= 'Z' then (ch as int + 32) as char else ch
  }

  /** str.lower (ASCII letters only). */
  function Lower(s: string): (r: string)
    ensures |r| == |s|
    ensures forall i :: 0 <= i < |s| ==> r[i] == LowerChar(s[i])
  {
    if s == "" then "" else [LowerChar(s[0])] + Lower(s[1..])
  }

  /** str.endswith. */
  predicate EndsWith(s: string, suffix: string)
  {
    |suffix| <= |s| && s[|s| - |suffix|..] == suffix
  }

  /** The directory walk keeps a file iff its lower-cased name ends in ".avi" or ".mkv". */
  predicate IsMovieFile(name: string)
  {
    EndsWith(Lower(name), ".avi") || EndsWith(Lower(name), ".mkv")
  }

  /**
   * The movie test spelled out character by character: a dot, then "avi" or
   * "mkv" in any mix of upper and lower case, at the very end of the name.
   */
  lemma {:induction false} IsMovieFileSpelledOut(name: string)
    ensures IsMovieFile(name) <==>
      |name| >= 4 && name[|name| - 4] == '.' &&
      ((CaseFree(name[|name| - 3], 'a', 'A') && CaseFree(name[|name| - 2], 'v', 'V') && CaseFree(name[|name| - 1], 'i', 'I')) ||
       (CaseFree(name[|name| - 3], 'm', 'M') && CaseFree(name[|name| - 2], 'k', 'K') && CaseFree(name[|name| - 1], 'v', 'V')))
  {
    var n := |name|;
    var low := Lower(name);
    if n >= 4 {
      assert low[n - 4..] == [LowerChar(name[n - 4]), LowerChar(name[n - 3]), LowerChar(name[n - 2]), LowerChar(name[n - 1])];
      LowerCharMatches(name[n - 3], 'a', 'A');
      LowerCharMatches(name[n - 3], 'm', 'M');
      LowerCharMatches(name[n - 2], 'v', 'V');
      LowerCharMatches(name[n - 2], 'k', 'K');
      LowerCharMatches(name[n - 1], 'i', 'I');
      LowerCharMatches(name[n - 1], 'v', 'V');
    }
  }

  /** `ch` is the lower-case letter `lo` or its upper-case form `up`. */
  predicate CaseFree(ch: char, lo: char, up: char)
  {
    ch == lo || ch == up
  }

  /** Lower-casing gives a lower-case letter exactly from that letter in either case. */
  lemma LowerCharMatches(ch: char, lo: char, up: char)
    requires 'a' <= lo <= 'z' && up as int == lo as int - 32
    ensures LowerChar(ch) == lo <==> CaseFree(ch, lo, up)
  {
  }

  /** An ".mp4" file is not taken as a movie, in any mix of cases: no four-character ending in '4' is. */
  lemma Mp4Skipped(stem: string, ext: string)
    requires |ext| == 4 && ext[3] == '4'
    ensures !IsMovieFile(stem + ext)
  {
    IsMovieFileSpelledOut(stem + ext);
    var n := |stem + ext|;
    assert (stem + ext)[n - 1] == '4';
  }

  /** The position of the last `ch` in `s`, or -1 (str.rfind). */
  function LastIndexOf(s: string, ch: char): (k: int)
    ensures -1 <= k < |s|
    ensures k >= 0 ==> s[k] == ch
    ensures forall j :: k < j < |s| ==> s[j] != ch
  {
    if s == "" then -1
    else if s[|s| - 1] == ch then |s| - 1
    else LastIndexOf(s[..|s| - 1], ch)
  }

  /**
   * The root part of os.path.splitext on POSIX: the path up to its last dot,
   * provided that dot lies in the last path component and is preceded there
   * by a character other than a dot; otherwise the whole path.
   */
  function SplitExtRoot(p: string): string
  {
    var sepIndex := LastIndexOf(p, '/');
    var dotIndex := LastIndexOf(p, '.');
    if dotIndex > sepIndex && exists i :: sepIndex < i < dotIndex && p[i] != '.'
    then p[..dotIndex]
    else p
  }

  /** os.path.join on POSIX with two components. */
  function Join(a: string, b: string): string
  {
    if |b| > 0 && b[0] == '/' then b
    else if a == "" || a[|a| - 1] == '/' then a + b
    else a + "/" + b
  }

  /** The file a movie's subtitle is written to: its name, extension replaced by ".srt", in its directory. */
  function SrtPath(dir: string, file: string): string
  {
    Join(dir, SplitExtRoot(file) + ".srt")
  }

  /**
   * os.path.splitext cuts a movie name just before its 4-character extension
   * when something other than dots precedes it.
   */
  lemma SplitMovieName(file: string)
    requires IsMovieFile(file)
    requires '/' !in file
    requires exists i :: 0 <= i < |file| - 4 && file[i] != '.'
    ensures SplitExtRoot(file) == file[..|file| - 4]
  {
    ExtensionChars(file);
    SplitAtDot(file, |file| - 4);
  }

  /**
   * For a movie file whose name has something other than dots before its
   * extension, the subtitle takes the name without its 4-character extension
   * plus ".srt", placed in the movie's directory.
   */
  lemma SubtitleBesideMovie(dir: string, file: string)
    requires IsMovieFile(file)
    requires '/' !in file
    requires exists i :: 0 <= i < |file| - 4 && file[i] != '.'
    ensures SrtPath(dir, file) == Join(dir, file[..|file| - 4] + ".srt")
    ensures dir != "" && dir[|dir| - 1] != '/' ==> SrtPath(dir, file) == dir + "/" + file[..|file| - 4] + ".srt"
    ensures dir == "" || dir[|dir| - 1] == '/' ==> SrtPath(dir, file) == dir + file[..|file| - 4] + ".srt"
  {
    SplitMovieName(file);
    var name := file[..|file| - 4] + ".srt";
    if |file| > 4 {
      assert name[0] == file[0] && file[0] in file;
    }
    assert !(|name| > 0 && name[0] == '/');
  }

  /**
   * A movie name made only of dots before its extension (".avi", "..mkv") is
   * not split by os.path.splitext: ".srt" is appended to the whole name.
   */
  lemma DotOnlyStemKeepsExtension(dir: string, file: string)
    requires IsMovieFile(file)
    requires forall i :: 0 <= i < |file| - 4 ==> file[i] == '.'
    ensures SrtPath(dir, file) == Join(dir, file + ".srt")
  {
    ExtensionChars(file);
    SplitAtDot(file, |file| - 4);
  }

  /** The characters of a movie name's extension: a dot, then three that are neither dots nor '/'. */
  lemma ExtensionChars(file: string)
    requires IsMovieFile(file)
    ensures |file| >= 4 && file[|file| - 4] == '.'
    ensures forall k :: |file| - 4 < k < |file| ==> file[k] != '.' && file[k] != '/'
  {
    var n := |file|;
    IsMovieFileSpelledOut(file);
    assert ExtensionLetter(file[n - 3]) && ExtensionLetter(file[n - 2]) && ExtensionLetter(file[n - 1]);
  }

  /** A letter of "avi" or "mkv", in either case. */
  predicate ExtensionLetter(ch: char)
  {
    CaseFree(ch, 'a', 'A') || CaseFree(ch, 'v', 'V') || CaseFree(ch, 'i', 'I') ||
    CaseFree(ch, 'm', 'M') || CaseFree(ch, 'k', 'K')
  }

  /**
   * splitext on a name without '/' whose last dot is at `dot`: the name is cut
   * there iff a character other than a dot comes before it.
   */
  lemma SplitAtDot(p: string, dot: nat)
    requires dot < |p| && p[dot] == '.'
    requires forall k :: dot < k < |p| ==> p[k] != '.' && p[k] != '/'
    requires forall k :: 0 <= k <= dot ==> p[k] != '/'
    ensures SplitExtRoot(p) == if exists i :: 0 <= i < dot && p[i] != '.' then p[..dot] else p
  {
    assert LastIndexOf(p, '/') == -1;
    assert LastIndexOf(p, '.') == dot;
  }

  /** Whatever the names, the subtitle path ends in ".srt". */
  lemma SrtPathEndsWithSrt(dir: string, file: string)
    ensures EndsWith(SrtPath(dir, file), ".srt")
  {
    var b := SplitExtRoot(file) + ".srt";
    assert b[|b| - 4..] == ".srt";
    JoinEndsWith(dir, b, ".srt");
  }

  /** Joining a directory in front keeps the ending of the name. */
  lemma JoinEndsWith(a: string, b: string, suffix: string)
    requires EndsWith(b, suffix)
    ensures EndsWith(Join(a, b), suffix)
  {
    var j := Join(a, b);
    if !(|b| > 0 && b[0] == '/') {
      assert j[|j| - |b|..] == b;
      assert j[|j| - |suffix|..] == b[|b| - |suffix|..];
    }
  }

  /**
   * Two movies in one directory that differ only in their extension
   * ("film.avi" and "film.MKV") share one subtitle file.
   */
  lemma SiblingsShareSubtitle(dir: string, stem: string, ext1: string, ext2: string)
    requires |ext1| == 4 && |ext2| == 4
    requires IsMovieFile(stem + ext1) && IsMovieFile(stem + ext2)
    requires '/' !in stem && exists i :: 0 <= i < |stem| && stem[i] != '.'
    ensures SrtPath(dir, stem + ext1) == SrtPath(dir, stem + ext2)
  {
    NameWithExtension(stem, ext1);
    NameWithExtension(stem, ext2);
    SubtitleBesideMovie(dir, stem + ext1);
    SubtitleBesideMovie(dir, stem + ext2);
  }

  /** A movie name built from a stem and a 4-character extension meets the conditions of SubtitleBesideMovie. */
  lemma NameWithExtension(stem: string, ext: string)
    requires |ext| == 4 && IsMovieFile(stem + ext)
    requires '/' !in stem && exists i :: 0 <= i < |stem| && stem[i] != '.'
    ensures '/' !in stem + ext
    ensures exists i :: 0 <= i < |stem + ext| - 4 && (stem + ext)[i] != '.'
    ensures (stem + ext)[..|stem + ext| - 4] == stem
  {
    var file := stem + ext;
    ExtensionChars(file);
    assert forall k :: 0 <= k < |stem| ==> file[k] == stem[k];
    var i :| 0 <= i < |stem| && stem[i] != '.';
    assert file[i] == stem[i];
    assert file[..|file| - 4] == stem;
  }
}
