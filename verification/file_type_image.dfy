/** The icon choice of src/utils/file-type-image.ts: the extension of a
    file name, and the icon file name for that extension. */
module FileTypeImage {
  import Strings

  /** `getFileType(fileName)`: the lower-cased text after the last `.`, or
      the whole lower-cased name when there is no `.`. */
  function GetFileType(name: string): (r: string)
    ensures '.' !in r
    ensures |r| <= |name| && r == Strings.Lower(name[|name| - |r|..])
    ensures |r| < |name| ==> name[|name| - |r| - 1] == '.'
    ensures '.' !in name ==> r == Strings.Lower(name)
  {
    var parts := Strings.Split(name, '.');
    Strings.LastPartIsSuffix(name, '.');
    Strings.Lower(parts[|parts| - 1])
  }

  const Icons: set<string> := {"word.png", "zip.png", "pdf.png", "excel.png", "jpg.png", "txt.png"}

  /** The icon table: one of six icons per extension; anything not listed
      gets the text icon. */
  function IconFor(t: string): (r: string)
    ensures r in Icons
    ensures r == "word.png" <==> t == "doc" || t == "docx"
    ensures r == "zip.png" <==> t == "zip" || t == "rar"
    ensures r == "pdf.png" <==> t == "pdf"
    ensures r == "excel.png" <==> t == "xls" || t == "xlsx"
    ensures r == "jpg.png" <==> t in ["jpg", "jpeg", "png", "gif", "bmp"]
  {
    if t == "doc" || t == "docx" then "word.png"
    else if t == "zip" || t == "rar" then "zip.png"
    else if t == "pdf" then "pdf.png"
    else if t == "xls" || t == "xlsx" then "excel.png"
    else if t in ["jpg", "jpeg", "png", "gif", "bmp"] then "jpg.png"
    else "txt.png"
  }

  /** `getFileImageName(fileName)`: the icon of the name's extension. */
  function GetFileImageName(name: string): (r: string)
    ensures r in Icons
    ensures var t := GetFileType(name);
      && (r == "word.png" <==> t == "doc" || t == "docx")
      && (r == "zip.png" <==> t == "zip" || t == "rar")
      && (r == "pdf.png" <==> t == "pdf")
      && (r == "excel.png" <==> t == "xls" || t == "xlsx")
      && (r == "jpg.png" <==> t in ["jpg", "jpeg", "png", "gif", "bmp"])
  {
    IconFor(GetFileType(name))
  }

  /** Lower-casing commutes with taking a suffix. */
  lemma LowerSuffix(s: string, m: nat)
    requires m <= |s|
    ensures Strings.Lower(s)[m..] == Strings.Lower(s[m..])
  {
  }

  /** Names that agree once lower-cased have their dots at the same
      places. */
  lemma SameDots(a: string, b: string)
    requires Strings.Lower(a) == Strings.Lower(b)
    ensures |a| == |b|
    ensures forall i :: 0 <= i < |a| ==> (a[i] == '.' <==> b[i] == '.')
  {
    forall i | 0 <= i < |a| ensures a[i] == '.' <==> b[i] == '.' {
      assert Strings.Lower(a)[i] == Strings.LowerChar(a[i]);
      assert Strings.Lower(b)[i] == Strings.LowerChar(b[i]);
    }
  }

  /** A lower-cased text without a dot came from a text without one. */
  lemma NoDotBeforeLower(s: string)
    requires '.' !in Strings.Lower(s)
    ensures forall i :: 0 <= i < |s| ==> s[i] != '.'
  {
    forall i | 0 <= i < |s| ensures s[i] != '.' {
      assert Strings.Lower(s)[i] == Strings.LowerChar(s[i]);
    }
  }

  /** The extension of a name is no longer than that of a name with dots
      at the same places: a longer one would hold the dot before the
      shorter. */
  lemma ExtensionAtMost(a: string, b: string)
    requires |a| == |b|
    requires forall i :: 0 <= i < |a| ==> (a[i] == '.' <==> b[i] == '.')
    ensures |GetFileType(a)| <= |GetFileType(b)|
  {
    var n := |a|;
    var ta, tb := GetFileType(a), GetFileType(b);
    NoDotBeforeLower(a[n - |ta|..]);
  }

  /** The choice is case-insensitive: names that agree once lower-cased get
      the same extension and so the same icon. */
  lemma CaseInsensitive(a: string, b: string)
    requires Strings.Lower(a) == Strings.Lower(b)
    ensures GetFileType(a) == GetFileType(b)
    ensures GetFileImageName(a) == GetFileImageName(b)
  {
    SameDots(a, b);
    ExtensionAtMost(a, b);
    ExtensionAtMost(b, a);
    var m := |a| - |GetFileType(a)|;
    LowerSuffix(a, m);
    LowerSuffix(b, m);
  }

  /** The extension is what follows the LAST dot, whatever precedes it. */
  lemma ExtensionAfterLastDot(base: string, ext: string)
    requires '.' !in ext
    ensures GetFileType(base + ['.'] + ext) == Strings.Lower(ext)
  {
    var name := base + ['.'] + ext;
    var r := GetFileType(name);
    assert name[|name| - |ext| - 1] == '.';
    assert forall i :: 0 <= i < |ext| ==> name[|base| + 1 + i] == ext[i];
    assert |r| == |ext|;
    assert name[|name| - |r|..] == ext;
  }

  /** Upper-case extensions are recognised. */
  lemma UpperCaseWord(base: string)
    ensures GetFileImageName(base + ".DOCX") == "word.png"
  {
    ExtensionAfterLastDot(base, "DOCX");
    assert base + ['.'] + "DOCX" == base + ".DOCX";
    LowerDocx();
    assert IconFor("docx") == "word.png";
  }

  /** Only the text after the last dot counts, whatever dots come before. */
  lemma LastDotWins(base: string)
    ensures GetFileImageName(base + ".tar.RAR") == "zip.png"
  {
    ExtensionAfterLastDot(base + ".tar", "RAR");
    assert base + ".tar" + ['.'] + "RAR" == base + ".tar.RAR";
    LowerRar();
    assert IconFor("rar") == "zip.png";
  }

  lemma LowerDocx()
    ensures Strings.Lower("DOCX") == "docx"
  {
  }

  lemma LowerRar()
    ensures Strings.Lower("RAR") == "rar"
  {
  }
}
