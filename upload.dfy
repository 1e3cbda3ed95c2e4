/** The name handling of the upload route of app.py: allowed_file (lines
    41-42), which decides whether an uploaded file is accepted, and the
    name of the subtitle file written for it (lines 118-122). The
    sanitised name (werkzeug's secure_filename), the uid (uuid4().hex) and
    the timestamp (datetime.now() formatted "%Y%m%d%H%M%S") are inputs. */
module Upload {
  import opened Text
  import Catalog

  /** ALLOWED_EXTENSIONS (app.py:29). */
  const AllowedExtensions: set<string> := {"mp4", "avi", "mov", "mkv"}

  /** allowed_file: the name holds a '.', and the text after its last '.',
      lower-cased, is one of the allowed extensions. */
  predicate AllowedFile(name: string) {
    '.' in name && Lower(name[RFind(name, '.') + 1..]) in AllowedExtensions
  }

  /** Lower-casing commutes with dropping a prefix. */
  lemma LowerDrop(s: string, i: nat)
    requires i <= |s|
    ensures Lower(s[i..]) == Lower(s)[i..]
  {
  }

  /** The last '.' of a name. */
  lemma LastDot(s: string, i: nat)
    requires i < |s| && s[i] == '.' && '.' !in s[i + 1..]
    ensures RFind(s, '.') == i
  {
  }

  /** The name, lower-cased, ends with a '.' and an allowed extension. */
  predicate HasVideoSuffix(name: string) {
    exists e :: e in AllowedExtensions && EndsWith(Lower(name), "." + e)
  }

  /** Lower-cased, the name from a '.' on is that '.' and the lower-cased
      rest. */
  lemma LowerFromDot(name: string, r: nat)
    requires r < |name| && name[r] == '.'
    ensures Lower(name)[r..] == "." + Lower(name[r + 1..])
  {
    LowerKeepsPunctuation(name[r]);
    LowerDrop(name, r + 1);
    assert Lower(name)[r..] == [Lower(name)[r]] + Lower(name)[r + 1..];
  }

  /** The lower-cased text after the last '.' is an allowed extension. */
  lemma AllowedHasSuffix(name: string)
    requires AllowedFile(name)
    ensures HasVideoSuffix(name)
  {
    var r := RFind(name, '.');
    assert r >= 0 by {
      var k :| 0 <= k < |name| && name[k] == '.';
    }
    var e := Lower(name[r + 1..]);
    assert e == "mp4" || e == "avi" || e == "mov" || e == "mkv";
    assert |name| == r + 4;
    var l := Lower(name);
    assert l[|l| - 4..] == "." + e by {
      LowerFromDot(name, r);
    }
    assert EndsWith(l, "." + e);
  }

  /** A name that ends in an allowed extension has its last '.' where the
      extension begins. */
  lemma SuffixAllowed(name: string)
    requires HasVideoSuffix(name)
    ensures AllowedFile(name)
  {
    var e :| e in AllowedExtensions && EndsWith(Lower(name), "." + e);
    ExtensionShape(e);
    ExtensionAt(name, e);
    LastDotAllowed(name, |name| - 4, e);
  }

  /** Where a lower-cased name ends with '.' and three characters with no
      '.' among them, the name has its last '.'. */
  lemma ExtensionAt(name: string, e: string)
    requires |e| == 3 && '.' !in e && EndsWith(Lower(name), "." + e)
    ensures name[|name| - 4] == '.' && '.' !in name[|name| - 3..]
    ensures Lower(name[|name| - 3..]) == e
  {
    var l, i := Lower(name), |name| - 4;
    assert l[i] == '.' && l[i + 1..] == e by {
      DotThen(l, i, e);
    }
    LowerKeepsPunctuation(name[i]);
    DotsOfLower(name, i + 1);
    LowerDrop(name, i + 1);
  }

  /** A name whose last '.' is followed by an allowed extension passes. */
  lemma LastDotAllowed(name: string, i: nat, e: string)
    requires i < |name| && name[i] == '.' && '.' !in name[i + 1..]
    requires e in AllowedExtensions && Lower(name[i + 1..]) == e
    ensures AllowedFile(name)
  {
    LastDot(name, i);
    assert name[i] in name;
  }

  /** An allowed extension is three characters, none of them a '.'. */
  lemma ExtensionShape(e: string)
    requires e in AllowedExtensions
    ensures |e| == 3 && '.' !in e
  {
    assert e == "mp4" || e == "avi" || e == "mov" || e == "mkv";
  }

  lemma DotThen(l: string, i: nat, e: string)
    requires i <= |l| && l[i..] == "." + e
    ensures i < |l| && l[i] == '.' && l[i + 1..] == e
  {
    assert l[i + 1..] == l[i..][1..];
  }

  /** Lower-casing keeps the '.' of a name where they are. */
  lemma DotsOfLower(s: string, j: nat)
    requires j <= |s|
    ensures '.' in Lower(s)[j..] <==> '.' in s[j..]
  {
    forall k | j <= k < |s|
      ensures Lower(s)[k] == '.' <==> s[k] == '.'
    {
      LowerKeepsPunctuation(s[k]);
    }
    assert forall k :: 0 <= k < |s| - j ==> Lower(s)[j..][k] == Lower(s)[j + k] && s[j..][k] == s[j + k];
  }

  /** allowed_file holds exactly for the names that end, case-insensitively,
      in an allowed extension. */
  lemma AllowedFileIff(name: string)
    ensures AllowedFile(name) <==> HasVideoSuffix(name)
  {
    if AllowedFile(name) {
      AllowedHasSuffix(name);
    }
    if HasVideoSuffix(name) {
      SuffixAllowed(name);
    }
  }

  /** A name without a '.' is refused. */
  lemma NoDotRefused(name: string)
    requires '.' !in name
    ensures !AllowedFile(name)
  {
  }

  /** A bare ".mp4" is accepted. */
  lemma BareExtensionAccepted()
    ensures AllowedFile(".mp4")
  {
    LastDot(".mp4", 0);
    assert ".mp4"[1..] == "mp4";
    assert Lower("mp4") == "mp4";
  }

  /** The extension may be in upper case. */
  lemma UpperCaseAccepted()
    ensures AllowedFile("Clip.MKV")
  {
    LastDot("Clip.MKV", 4);
    assert "Clip.MKV"[5..] == "MKV";
    assert Lower("MKV") == "mkv";
  }

  /** Only the last extension counts. */
  lemma LastExtensionCounts()
    ensures !AllowedFile("clip.mp4.txt")
  {
    LastDot("clip.mp4.txt", 8);
    assert "clip.mp4.txt"[9..] == "txt";
  }

  /** The last component of p, the text after its last '/', holds a '.'
      with some character other than '.' before it in that component. */
  predicate HasExtension(p: string) {
    exists i, j :: RFind(p, '/') < i < j < |p| && p[i] != '.' && p[j] == '.'
  }

  /** Python's os.path.splitext on POSIX: the extension starts at the last
      '.' after the last '/', provided some character other than '.'
      precedes it in the last component (leading dots do not start an
      extension); otherwise there is no extension. */
  function SplitExt(p: string): (r: (string, string))
    ensures r.0 + r.1 == p
    ensures r.1 == [] || (r.1[0] == '.' && '.' !in r.1[1..] && '/' !in r.1)
    ensures r.1 != [] <==> HasExtension(p)
    ensures r.1 != [] ==> |r.0| == RFind(p, '.')
  {
    var sep := RFind(p, '/');
    var dot := RFind(p, '.');
    if dot > sep && exists k :: sep + 1 <= k < dot && p[k] != '.' then
      assert p[dot..][1..] == p[dot + 1..];
      (p[..dot], p[dot..])
    else (p, [])
  }

  /** The extension is split off at the last '.'. */
  lemma SplitExtLastDot()
    ensures SplitExt("talk.tar.mkv") == ("talk.tar", ".mkv")
  {
    var p := "talk.tar.mkv";
    assert p[0] == 't';
    assert p[..8] == "talk.tar" && p[8..] == ".mkv";
    assert RFind(p, '/') == -1 by {
      assert '/' !in p;
    }
    LastDot(p, 8);
  }

  /** Leading dots do not start an extension. */
  lemma SplitExtLeadingDot()
    ensures SplitExt(".hidden") == (".hidden", "")
  {
    LastDot(".hidden", 0);
  }

  /** The name of the subtitle file for an upload with sanitised name
      safeName: safeName without its extension, the timestamp and the uid,
      joined by '_', and ".srt". */
  function SrtFileName(safeName: string, timestamp: string, uid: string): string {
    SplitExt(safeName).0 + "_" + timestamp + "_" + uid + ".srt"
  }

  /** The subtitle file an upload writes is one the index page lists. */
  lemma SrtFileNameListed(safeName: string, timestamp: string, uid: string)
    ensures Catalog.IsSrtName(SrtFileName(safeName, timestamp, uid))
  {
    var r := SrtFileName(safeName, timestamp, uid);
    var l := Lower(r);
    assert r[|r| - 4..] == ".srt";
    assert l[|l| - 4..] == ".srt" by {
      forall k | |r| - 4 <= k < |r|
        ensures l[k] == r[k]
      {
        assert r[k] == ".srt"[k - (|r| - 4)];
      }
    }
  }

  /** Two uploads of the same file at the same second get different
      subtitle files when their uids differ. */
  lemma SrtFileNameUnique(safeName: string, timestamp: string, uid1: string, uid2: string)
    requires uid1 != uid2
    ensures SrtFileName(safeName, timestamp, uid1) != SrtFileName(safeName, timestamp, uid2)
  {
    var p := SplitExt(safeName).0 + "_" + timestamp + "_";
    var a, b := SrtFileName(safeName, timestamp, uid1), SrtFileName(safeName, timestamp, uid2);
    assert a == p + uid1 + ".srt";
    assert b == p + uid2 + ".srt";
    assert a[|p|..|p| + |uid1|] == uid1;
    assert b[|p|..|p| + |uid2|] == uid2;
  }

  /** Splitting the extension off the subtitle file's name gives back
      ".srt" and the rest of the name, when the uid holds no '/' (a uuid's
      hex digits never do). */
  lemma SrtFileNameSplit(safeName: string, timestamp: string, uid: string)
    requires '/' !in uid
    ensures SplitExt(SrtFileName(safeName, timestamp, uid))
      == (SplitExt(safeName).0 + "_" + timestamp + "_" + uid, ".srt")
  {
    var stem := SplitExt(safeName).0 + "_" + timestamp + "_" + uid;
    var r := SrtFileName(safeName, timestamp, uid);
    assert r == stem + ".srt";
    var dot := |r| - 4;
    var under := |stem| - |uid| - 1;
    assert r[under] == '_';
    assert '.' !in r[dot + 1..] by {
      assert r[dot + 1..] == "srt";
    }
    LastDot(r, dot);
    assert '/' !in r[under..] by {
      assert r[under..] == "_" + uid + ".srt";
    }
    assert RFind(r, '/') < under;
    assert r[..dot] == stem;
    assert r[dot..] == ".srt";
  }
}
