/** The file the user picks, and the check on its name that decides whether it is accepted. */
module Selection {

  /** A file handed over by the browser's file picker: its name and its bytes. */
  datatype File = File(name: string, bytes: seq<bv8>)

  /** The two accepted endings, in lower case. */
  const HeicExtension := ".heic"
  const HeifExtension := ".heif"

  /** Lower-case mapping of one character: `A`-`Z` become `a`-`z`, every other character stays. */
  function LowerChar(c: char): (d: char)
    ensures !('A' <= d <= 'Z')
    ensures 'A' <= c <= 'Z' ==> d as int == c as int + ('a' as int - 'A' as int)
    ensures !('A' <= c <= 'Z') ==> d == c
  {
    if 'A' <= c <= 'Z' then (c as int + ('a' as int - 'A' as int)) as char else c
  }

  /** `toLowerCase`, character by character. */
  function Lower(s: string): (r: string)
    ensures |r| == |s|
    ensures forall i :: 0 <= i < |s| ==> r[i] == LowerChar(s[i])
  {
    seq(|s|, i requires 0 <= i < |s| => LowerChar(s[i]))
  }

  /** Lower-casing commutes with taking a slice. */
  lemma LowerSlice(s: string, i: nat, j: nat)
    requires i <= j <= |s|
    ensures Lower(s)[i..j] == Lower(s[i..j])
  {
    var whole, part := Lower(s), Lower(s[i..j]);
    assert |whole[i..j]| == |part|;
    forall k | 0 <= k < j - i
      ensures whole[i..j][k] == part[k]
    {
      assert whole[i..j][k] == whole[i + k];
      assert s[i..j][k] == s[i + k];
    }
  }

  /** Lower-casing twice is lower-casing once. */
  lemma LowerIdempotent(s: string)
    ensures Lower(Lower(s)) == Lower(s)
  {
    assert forall k :: 0 <= k < |s| ==> Lower(Lower(s))[k] == LowerChar(LowerChar(s[k]));
  }

  /** `endsWith`: `s` finishes with `suffix`. */
  function EndsWith(s: string, suffix: string): (b: bool)
    ensures b <==> exists stem :: stem + suffix == s
  {
    if |suffix| <= |s| && s[|s| - |suffix|..] == suffix then
      assert s[..|s| - |suffix|] + suffix == s;
      true
    else
      false
  }

  /** The name check of the file picker: the lower-cased name ends in `.heic` or `.heif`. */
  function IsHeifName(name: string): (accepted: bool)
    ensures accepted ==> |name| >= 5 && name[|name| - 5] == '.'
  {
    var fileName := Lower(name);
    EndsWith(fileName, HeicExtension) || EndsWith(fileName, HeifExtension)
  }

  /** Only the last five characters of the name decide the check, whatever their case. */
  lemma IsHeifNameLastFive(name: string)
    ensures IsHeifName(name) <==> |name| >= 5 && Lower(name[|name| - 5..]) in {HeicExtension, HeifExtension}
  {
    var fileName := Lower(name);
    assert |HeicExtension| == |HeifExtension| == 5;
    if |name| >= 5 {
      LowerSlice(name, |name| - 5, |name|);
      assert name[|name| - 5..] == name[|name| - 5..|name|];
      assert fileName[|name| - 5..] == fileName[|name| - 5..|name|];
      assert EndsWith(fileName, HeicExtension) <==> fileName[|name| - 5..] == HeicExtension;
      assert EndsWith(fileName, HeifExtension) <==> fileName[|name| - 5..] == HeifExtension;
    }
  }

  /** The check ignores case: a name and its lower-cased form are accepted alike. */
  lemma IsHeifNameIgnoresCase(name: string)
    ensures IsHeifName(Lower(name)) == IsHeifName(name)
  {
    IsHeifNameLastFive(name);
    IsHeifNameLastFive(Lower(name));
    LowerIdempotent(name);
    if |name| >= 5 {
      LowerSlice(name, |name| - 5, |name|);
      LowerSlice(Lower(name), |name| - 5, |name|);
      LowerIdempotent(name[|name| - 5..]);
    }
  }

  /** `.HEIC` lower-cases to the accepted `.heic`. */
  lemma LowerUpperHeic()
    ensures Lower(".HEIC") == HeicExtension
  {
    var ending := Lower(".HEIC");
    assert ending[0] == '.' && ending[1] == 'h' && ending[2] == 'e' && ending[3] == 'i' && ending[4] == 'c';
  }

  /** `.HeIf` lower-cases to the accepted `.heif`. */
  lemma LowerMixedHeif()
    ensures Lower(".HeIf") == HeifExtension
  {
    var ending := Lower(".HeIf");
    assert ending[0] == '.' && ending[1] == 'h' && ending[2] == 'e' && ending[3] == 'i' && ending[4] == 'f';
  }

  /** Any name ending in `.HEIC`, upper case, is accepted. */
  lemma AcceptsUpperCaseHeic(stem: string)
    ensures IsHeifName(stem + ".HEIC")
  {
    var name := stem + ".HEIC";
    IsHeifNameLastFive(name);
    assert name[|name| - 5..] == ".HEIC";
    LowerUpperHeic();
  }

  /** Any name ending in `.HeIf`, mixed case, is accepted. */
  lemma AcceptsMixedCaseHeif(stem: string)
    ensures IsHeifName(stem + ".HeIf")
  {
    var name := stem + ".HeIf";
    IsHeifNameLastFive(name);
    assert name[|name| - 5..] == ".HeIf";
    LowerMixedHeif();
  }

  /** Any name ending in `.png` is rejected. */
  lemma RejectsPng(stem: string)
    ensures !IsHeifName(stem + ".png")
  {
    var name := stem + ".png";
    IsHeifNameLastFive(name);
    assert HeicExtension[1] == HeifExtension[1] == 'h';
    if |name| >= 5 {
      assert name[|name| - 5..][1] == '.';
      assert Lower(name[|name| - 5..])[1] == '.';
    }
  }

  /** An accepted ending followed by another ending is rejected. */
  lemma RejectsHeicFollowedByJpg(stem: string)
    ensures !IsHeifName(stem + ".heic.jpg")
  {
    var name := stem + ".heic.jpg";
    IsHeifNameLastFive(name);
    assert HeicExtension[1] == HeifExtension[1] == 'h';
    assert name[|name| - 5..][1] == '.';
    assert Lower(name[|name| - 5..])[1] == '.';
  }
}
