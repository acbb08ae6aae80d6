/**
 The eligibility filter of the image viewer: a path is reviewable unless it
 contains, case-sensitively, one of ten fixed substrings. The substrings are
 matched literally; the backslash ones are Windows path separators.
 */
module Filter {

  /** The fixed exclusion list, in the order the viewer declares it. */
  const Blacklist: seq<string> := [
    "nohq.png",
    "co.png",
    "smdi.png",
    "ao.png",
    "as.png",
    "\\UI\\",
    "\\ui\\",
    "\\icons\\",
    "_body_",
    "reticle"
  ]

  /** `pat` occurs in `s` starting at position `i`. */
  predicate OccursAt(s: string, pat: string, i: int)
  {
    0 <= i && i + |pat| <= |s| && s[i..i + |pat|] == pat
  }

  /** Substring test with the meaning of Python's `pat in s` on strings. */
  predicate Contains(s: string, pat: string)
  {
    exists i | 0 <= i <= |s| - |pat| :: OccursAt(s, pat, i)
  }

  /** Some pattern of `pats` occurs in `s` (Python's `any(f in s for f in pats)`). */
  function AnyOccurs(s: string, pats: seq<string>): bool
  {
    if pats == [] then false
    else Contains(s, pats[0]) || AnyOccurs(s, pats[1..])
  }

  /** `AnyOccurs` holds exactly when one of the patterns is a substring. */
  lemma {:induction false} AnyOccursSpec(s: string, pats: seq<string>)
    ensures AnyOccurs(s, pats) <==> exists k :: 0 <= k < |pats| && Contains(s, pats[k])
  {
    if pats != [] {
      AnyOccursSpec(s, pats[1..]);
      assert forall k :: 1 <= k < |pats| ==> pats[k] == pats[1..][k - 1];
    }
  }

  /** No pattern of `pats` is a substring of `s`. */
  ghost predicate NoneOccurs(s: string, pats: seq<string>)
  {
    forall k :: 0 <= k < |pats| ==> !Contains(s, pats[k])
  }

  /** `is_image_valid`: no entry of the exclusion list occurs in the path. */
  function IsImageValid(path: string): (valid: bool)
    ensures valid <==> NoneOccurs(path, Blacklist)
  {
    AnyOccursSpec(path, Blacklist);
    !AnyOccurs(path, Blacklist)
  }

  /** A path is valid exactly when it contains none of the ten excluded substrings. */
  lemma ValidIffNoExcludedSubstring(path: string)
    ensures IsImageValid(path) <==>
              !(Contains(path, "nohq.png") || Contains(path, "co.png")
                || Contains(path, "smdi.png") || Contains(path, "ao.png")
                || Contains(path, "as.png") || Contains(path, "\\UI\\")
                || Contains(path, "\\ui\\") || Contains(path, "\\icons\\")
                || Contains(path, "_body_") || Contains(path, "reticle"))
  {
    AnyOccursSpec(path, Blacklist);
    assert Blacklist[0] == "nohq.png" && Blacklist[1] == "co.png";
    assert Blacklist[2] == "smdi.png" && Blacklist[3] == "ao.png";
    assert Blacklist[4] == "as.png" && Blacklist[5] == "\\UI\\";
    assert Blacklist[6] == "\\ui\\" && Blacklist[7] == "\\icons\\";
    assert Blacklist[8] == "_body_" && Blacklist[9] == "reticle";
  }

  /** A texture named `..._co.png` is excluded by the `co.png` entry. */
  lemma ColourMapRejected()
    ensures !IsImageValid("weapons\\rifle_co.png")
  {
    var p := "weapons\\rifle_co.png";
    assert OccursAt(p, "co.png", 14);
    ValidIffNoExcludedSubstring(p);
  }

  /** A UI icon is excluded, both by the `\UI\` directory and by `ao.png`. */
  lemma UiIconRejected()
    ensures !IsImageValid("textures\\UI\\icon_ao.png")
  {
    var p := "textures\\UI\\icon_ao.png";
    assert OccursAt(p, "\\UI\\", 8);
    ValidIffNoExcludedSubstring(p);
  }

  /** A pattern holding a character that `s` lacks does not occur in `s`. */
  lemma MissingCharExcludes(s: string, pat: string, j: nat)
    requires j < |pat| && pat[j] !in s
    ensures !Contains(s, pat)
  {
    forall i | 0 <= i <= |s| - |pat| ensures !OccursAt(s, pat, i) {
      assert s[i + j] in s;
      assert s[i + j] == s[i..i + |pat|][j];
    }
  }

  /** If `pat[j]` appears in `s` only at `q`, then `pat` can only occur at `q - j`. */
  lemma PinnedCharExcludes(s: string, pat: string, j: nat, q: int)
    requires j < |pat|
    requires forall m :: 0 <= m < |s| && s[m] == pat[j] ==> m == q
    requires !OccursAt(s, pat, q - j)
    ensures !Contains(s, pat)
  {
    forall i | 0 <= i <= |s| - |pat| ensures !OccursAt(s, pat, i) {
      assert s[i..i + |pat|][j] == s[i + j];
    }
  }

  /** A normal map in a weapons folder passes the filter. */
  lemma NormalMapAccepted()
    ensures IsImageValid("weapons\\rifle_normal.png")
  {
    NormalMapAvoidsSuffixes();
    NormalMapAvoidsOcclusionSuffixes();
    NormalMapAvoidsFolders();
    NormalMapAvoidsNames();
    NormalMapAvoidsSpecularAndIcons();
    ValidIffNoExcludedSubstring("weapons\\rifle_normal.png");
  }

  lemma NormalMapAvoidsSuffixes()
    ensures var p := "weapons\\rifle_normal.png";
            !Contains(p, "nohq.png") && !Contains(p, "co.png")
  {
    var p := "weapons\\rifle_normal.png";
    MissingCharExcludes(p, "nohq.png", 2);
    MissingCharExcludes(p, "co.png", 0);
  }

  /** The only `.` of the path is followed by `png`, not preceded by `ao` or `as`. */
  lemma NormalMapAvoidsOcclusionSuffixes()
    ensures var p := "weapons\\rifle_normal.png";
            !Contains(p, "ao.png") && !Contains(p, "as.png")
  {
    var p := "weapons\\rifle_normal.png";
    assert p[18..24][1] == p[19] == 'l';
    PinnedCharExcludes(p, "ao.png", 2, 20);
    PinnedCharExcludes(p, "as.png", 2, 20);
  }

  lemma NormalMapAvoidsFolders()
    ensures var p := "weapons\\rifle_normal.png";
            !Contains(p, "\\UI\\") && !Contains(p, "\\ui\\")
  {
    var p := "weapons\\rifle_normal.png";
    MissingCharExcludes(p, "\\UI\\", 1);
    MissingCharExcludes(p, "\\ui\\", 1);
  }

  lemma NormalMapAvoidsNames()
    ensures var p := "weapons\\rifle_normal.png";
            !Contains(p, "_body_") && !Contains(p, "reticle")
  {
    var p := "weapons\\rifle_normal.png";
    MissingCharExcludes(p, "_body_", 1);
    MissingCharExcludes(p, "reticle", 2);
  }

  lemma NormalMapAvoidsSpecularAndIcons()
    ensures var p := "weapons\\rifle_normal.png";
            !Contains(p, "smdi.png") && !Contains(p, "\\icons\\")
  {
    var p := "weapons\\rifle_normal.png";
    MissingCharExcludes(p, "smdi.png", 2);
    MissingCharExcludes(p, "\\icons\\", 2);
  }
}
