/** The static initializer of `GatorGradlePlugin`: classifying the
    operating system from `os.name`, and from it the directory GatorGrader
    is installed in and where the configuration file is looked for.

    `System.getProperty` is not modelled: the OS name, the user's home
    directory and the file separator are parameters. */
module Platform {
  import opened Texts

  /** The operating systems the plugin tells apart. */
  datatype Os = Linux | Windows | Mac | Unsupported

  const LinuxTag := "linux"
  const WindowsTag := "windows"
  const MacTag := "mac"
  const UnsupportedTag := "unsupported"

  /** The string constant `OS` is set to. */
  function Tag(os: Os): string {
    match os
    case Linux => LinuxTag
    case Windows => WindowsTag
    case Mac => MacTag
    case Unsupported => UnsupportedTag
  }

  /** The lower-cased OS name is searched for "linux", then "windows",
      then "mac"; the first that occurs decides, and a name containing
      none of them is unsupported. */
  function Classify(osName: string): (r: Os)
    ensures r == Linux <==> Contains(Lower(osName), LinuxTag)
    ensures r == Windows <==> !Contains(Lower(osName), LinuxTag) && Contains(Lower(osName), WindowsTag)
    ensures r == Mac <==> !Contains(Lower(osName), LinuxTag) && !Contains(Lower(osName), WindowsTag)
                          && Contains(Lower(osName), MacTag)
  {
    var os := Lower(osName);
    if Contains(os, LinuxTag) then Linux
    else if Contains(os, WindowsTag) then Windows
    else if Contains(os, MacTag) then Mac
    else Unsupported
  }

  /** `GATORGRADER_HOME`: under the XDG data directory on Linux and macOS,
      a hidden directory of the user's home everywhere else. */
  function Home(os: Os, userHome: string, sep: string): (r: string)
    ensures StartsWith(r, userHome + sep)
    ensures os in {Linux, Mac} ==> r[|userHome + sep|..] == ".local" + sep + "share" + sep + "gatorgrader"
    ensures os !in {Linux, Mac} ==> r[|userHome + sep|..] == ".gatorgrader"
  {
    var base := userHome + sep;
    var r := if os == Linux || os == Mac then base + (".local" + sep + "share" + sep + "gatorgrader")
             else base + ".gatorgrader";
    assert r[..|base|] == base;
    r
  }

  /** `CONFIG_FILE_LOCATION`, relative to the project directory. */
  function ConfigLocation(sep: string): string {
    "config" + sep + "gatorgrader.yml"
  }

  /** The constants the initializer sets. */
  datatype Setting = Setting(os: Os, tag: string, home: string, config: string, sep: string)

  /** The static initializer, from the system properties it reads. */
  function Initialize(osName: string, userHome: string, sep: string): (r: Setting)
    ensures r.tag == Tag(r.os) && r.sep == sep
    ensures r.os == Classify(osName)
    ensures r.home == Home(r.os, userHome, sep)
    ensures r.config == ConfigLocation(sep)
  {
    var os := Classify(osName);
    Setting(os, Tag(os), Home(os, userHome, sep), ConfigLocation(sep), sep)
  }

  // ---------------------------------------------------------------------
  // Properties

  lemma LowerCharIdempotent(c: char)
    ensures LowerChar(LowerChar(c)) == LowerChar(c)
  {
  }

  /** Lower-casing twice is lower-casing once. */
  lemma LowerIdempotent(s: string)
    ensures Lower(Lower(s)) == Lower(s)
  {
    forall i | 0 <= i < |s|
      ensures Lower(Lower(s))[i] == Lower(s)[i]
    {
      LowerCharIdempotent(s[i]);
    }
  }

  /** Classification ignores case: names that agree once lower-cased are
      classified alike, and a name is classified as its lower-case form. */
  lemma ClassifyIgnoresCase(a: string, b: string)
    requires Lower(a) == Lower(b)
    ensures Classify(a) == Classify(b)
    ensures Classify(Lower(a)) == Classify(a)
  {
    LowerIdempotent(a);
  }

  /** A text in which the first character of `p` never occurs does not
      contain `p`. */
  lemma Lacks(s: string, p: string)
    requires p != [] && p[0] !in s
    ensures !Contains(s, p)
  {
    forall i: nat | i <= |s|
      ensures !OccursAt(s, p, i)
    {
      if i + |p| <= |s| {
        assert s[i..i + |p|][0] == s[i] && s[i] in s;
      }
    }
  }

  /** Each tag is classified as the system it names, so `OS` can be read
      back as an `Os`. */
  lemma TagRoundTrip(os: Os)
    ensures Lower(Tag(os)) == Tag(os)
    ensures Classify(Tag(os)) == os
  {
    var t := Tag(os);
    assert Lower(t) == t;
    assert OccursAt(t, t, 0);
    if os != Linux {
      Lacks(t, LinuxTag);
    }
    if os == Mac || os == Unsupported {
      Lacks(t, WindowsTag);
    }
    if os == Unsupported {
      Lacks(t, MacTag);
    }
  }

  /** The `os.name` values of the three supported families. */
  lemma ClassifyExamples()
    ensures Classify("Linux") == Linux
    ensures Classify("Windows 10") == Windows
    ensures Classify("Mac OS X") == Mac
  {
    assert Classify("Linux") == Linux by {
      assert Lower("Linux") == "linux";
      assert OccursAt("linux", LinuxTag, 0);
    }
    assert Classify("Windows 10") == Windows by {
      assert Lower("Windows 10") == "windows 10";
      Lacks("windows 10", LinuxTag);
      assert OccursAt("windows 10", WindowsTag, 0);
    }
    assert Lower("Mac OS X") == "mac os x";
    Lacks("mac os x", LinuxTag);
    Lacks("mac os x", WindowsTag);
    assert OccursAt("mac os x", MacTag, 0);
  }

  /** A name mentioning none of the families is unsupported, and "linux"
      takes precedence over "mac" in a name that mentions both. */
  lemma ClassifyEdges()
    ensures Classify("SunOS") == Unsupported
    ensures Classify("Linux on a Mac") == Linux
  {
    assert Classify("SunOS") == Unsupported by {
      assert Lower("SunOS") == "sunos";
      Lacks("sunos", LinuxTag);
      Lacks("sunos", WindowsTag);
      Lacks("sunos", MacTag);
    }
    assert Lower("Linux on a Mac") == "linux on a mac";
    assert OccursAt("linux on a mac", LinuxTag, 0);
  }

  /** Windows and unsupported systems share the home directory, and it
      differs from the one Linux and macOS share, for any user home and
      separator. */
  lemma HomeFamilies(userHome: string, sep: string)
    ensures Home(Windows, userHome, sep) == Home(Unsupported, userHome, sep)
    ensures Home(Linux, userHome, sep) == Home(Mac, userHome, sep)
    ensures Home(Linux, userHome, sep) != Home(Windows, userHome, sep)
  {
    var n := |userHome + sep|;
    var linux := Home(Linux, userHome, sep);
    var windows := Home(Windows, userHome, sep);
    assert |linux| == n + 22 + 2 * |sep|;
    assert |windows| == n + 12;
  }
}
