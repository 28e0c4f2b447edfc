/** The upload file-name gate: a file may be uploaded only if the text after
    the last '.' of its name, lower-cased, is one of the allowed video
    extensions. */
module Filenames {
  import opened Wrappers

  /** The allow-list of video extensions, all lower case. */
  const AllowedExtensions: set<string> := {"mp4", "mov", "avi", "mkv"}

  /** Lower-casing of one character, for the characters that can decide
      whether an extension is on the allow-list: ASCII capitals, and the
      Kelvin sign, whose lower-case form is the single letter 'k'. Other
      characters are left as they are; see the README for how this differs
      from Python's str.lower. */
  function LowerChar(c: char): (d: char)
    ensures 'A' <= c <= 'Z' ==> d as int == c as int + 32
    ensures 'a' <= d <= 'z' ==> 'a' <= c <= 'z' || 'A' <= c <= 'Z' || c == '\U{212A}'
  {
    if 'A' <= c <= 'Z' then (c as int + 32) as char
    else if c == '\U{212A}' then 'k'
    else c
  }

  function Lower(s: string): (r: string)
    ensures |r| == |s|
    ensures forall i :: 0 <= i < |s| ==> r[i] == LowerChar(s[i])
  {
    seq(|s|, i requires 0 <= i < |s| => LowerChar(s[i]))
  }

  /** The position of the last '.' in s, if there is one. */
  function LastDot(s: string): (r: Option<nat>)
    ensures r.None? <==> '.' !in s
    ensures r.Some? ==> r.value < |s| && s[r.value] == '.' && '.' !in s[r.value + 1..]
  {
    if |s| == 0 then None
    else if s[|s| - 1] == '.' then Some(|s| - 1)
    else
      var r := LastDot(s[..|s| - 1]);
      assert forall i :: 0 <= i < |s| - 1 ==> s[..|s| - 1][i] == s[i];
      if r.Some? then
        assert s[r.value + 1..] == s[..|s| - 1][r.value + 1..] + [s[|s| - 1]];
        r
      else None
  }

  /** `filename.rsplit('.', 1)[1]`: the text after the last '.'. */
  function Extension(filename: string): (ext: string)
    requires '.' in filename
    ensures '.' !in ext
    ensures exists stem :: filename == stem + "." + ext
  {
    var k := LastDot(filename).value;
    assert filename == filename[..k] + "." + filename[k + 1..];
    filename[k + 1..]
  }

  /** `allowed_file`: the name contains a '.' and its lower-cased extension
      is on the allow-list. */
  function AllowedFile(filename: string): (ok: bool)
    ensures ok ==> |filename| >= 4 && filename[|filename| - 4] == '.'
    ensures ok ==> Lower(filename[|filename| - 3..]) in AllowedExtensions
  {
    if '.' in filename then
      var ext := Extension(filename);
      var stem :| filename == stem + "." + ext;
      assert filename[|stem|] == '.' && filename[|stem| + 1..] == ext;
      Lower(ext) in AllowedExtensions
    else false
  }

  /** A name splits at its last '.' in exactly one way: if the part after a
      '.' has no '.', that '.' is the last one. */
  lemma {:induction false} SplitAtLastDot(stem: string, ext: string)
    requires '.' !in ext
    ensures '.' in stem + "." + ext
    ensures Extension(stem + "." + ext) == ext
  {
    var name := stem + "." + ext;
    assert name[|stem|] == '.';
    assert name[|stem| + 1..] == ext;
    var k := LastDot(name).value;
    assert k == |stem|;
    assert name[k + 1..] == ext;
  }

  /** The gate, stated without positions: a name is allowed exactly when it
      is some stem, a '.', and a dot-free extension whose lower-cased form is
      on the allow-list. */
  lemma AllowedFileCharacterization(filename: string)
    ensures AllowedFile(filename) <==>
      exists stem, ext :: filename == stem + "." + ext && '.' !in ext && Lower(ext) in AllowedExtensions
  {
    if AllowedFile(filename) {
      var ext := Extension(filename);
      var stem :| filename == stem + "." + ext;
      assert filename == stem + "." + ext && '.' !in ext && Lower(ext) in AllowedExtensions;
    }
    if exists stem, ext :: filename == stem + "." + ext && '.' !in ext && Lower(ext) in AllowedExtensions {
      var stem, ext :| filename == stem + "." + ext && '.' !in ext && Lower(ext) in AllowedExtensions;
      SplitAtLastDot(stem, ext);
    }
  }

  /** A name without a '.' is never allowed, whatever it spells. */
  lemma NoDotRejected(filename: string)
    requires '.' !in filename
    ensures !AllowedFile(filename)
  {
  }

  /** Only the last extension counts, in any letter case. */
  lemma ExampleUpperCaseAccepted()
    ensures AllowedFile("a.tar.MP4")
  {
    SplitAtLastDot("a.tar", "MP4");
    assert Lower("MP4") == "mp4";
  }

  lemma ExampleInnerExtensionIgnored()
    ensures !AllowedFile("a.mp4.txt")
  {
    SplitAtLastDot("a.mp4", "txt");
    assert Lower("txt")[0] == 't';
  }

  lemma ExampleBareExtensionRejected()
    ensures !AllowedFile("mp4")
  {
    assert "mp4"[0] != '.' && "mp4"[1] != '.' && "mp4"[2] != '.';
  }
}
