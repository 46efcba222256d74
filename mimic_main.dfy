/**
 The pure string steps inside `main` of mimic.py: normalising the folder
 names, choosing the template files, deriving a template's target file name,
 and the commit message suffix that asks CI to skip the commit.
 */
module MimicMain {
  import opened Text

  /** `folder.strip('/')`: the folder name without leading or trailing slashes. */
  function FolderName(folder: string): (r: string)
    ensures r == [] || (r[0] != '/' && r[|r| - 1] != '/')
    ensures forall p: nat, q: nat :: IsStripped(folder, '/', p, q) ==> r == folder[p..q]
  {
    var r := Strip(folder, '/');
    forall p: nat, q: nat | IsStripped(folder, '/', p, q)
      ensures r == folder[p..q]
    {
      StripUnique(folder, '/', p, q);
    }
    assert r == [] || (r[0] != '/' && r[|r| - 1] != '/') by {
      var p: nat, q: nat :| IsStripped(folder, '/', p, q) && r == folder[p..q];
    }
    r
  }

  /** Normalising a folder name that is already normalised changes nothing. */
  lemma FolderNameIdempotent(folder: string)
    ensures FolderName(FolderName(folder)) == FolderName(folder)
  {
    StripIdempotent(folder, '/');
  }

  const TemplateExtension: string := ".mimic"

  /** `f.endswith('.mimic')`: the directory entries taken as templates. */
  predicate IsTemplateName(name: string)
  {
    EndsWith(name, TemplateExtension)
  }

  /**
   `[f for f in os.listdir(input_folder) if f.endswith('.mimic')]`: the
   template names among the directory entries, in listing order, each as
   often as it is listed.
   */
  function SelectTemplates(names: seq<string>): (r: seq<string>)
    ensures forall x :: x in r <==> x in names && IsTemplateName(x)
    ensures forall x :: multiset(r)[x] == if IsTemplateName(x) then multiset(names)[x] else 0
    decreases |names|
  {
    if names == [] then []
    else
      var rest := SelectTemplates(names[1..]);
      assert names == [names[0]] + names[1..];
      if IsTemplateName(names[0]) then [names[0]] + rest else rest
  }

  /** Selection keeps the listing order: selecting from a concatenation concatenates the selections. */
  lemma {:induction false} SelectTemplatesAppend(xs: seq<string>, ys: seq<string>)
    ensures SelectTemplates(xs + ys) == SelectTemplates(xs) + SelectTemplates(ys)
    decreases |xs|
  {
    if xs != [] {
      assert (xs + ys)[1..] == xs[1..] + ys;
      SelectTemplatesAppend(xs[1..], ys);
    } else {
      assert xs + ys == ys;
    }
  }

  /**
   The literal text that replaces `.mimic` in a target file name. mimic.py:110
   is not an f-string, so the braces and the word `file_ext` are kept as they are.
   */
  const TargetExtension: string := ".{file_ext}"

  /** `mimic_file.replace(".mimic", ".{file_ext}")`. */
  function TargetFileName(name: string): (r: string)
  {
    ReplaceAll(name, TemplateExtension, TargetExtension)
  }

  /**
   `.mimic` cannot overlap itself: an occurrence of it in `a + ".mimic" + b`
   that begins inside `a` lies wholly inside `a`, since the only `.` of
   `.mimic` is its first character.
   */
  lemma NoOccurrenceBeforeTag(a: string, b: string)
    requires !Contains(a, TemplateExtension)
    ensures forall k: nat :: k < |a| ==> !OccursAt(a + TemplateExtension + b, TemplateExtension, k)
  {
    var s := a + TemplateExtension + b;
    forall k: nat | k < |a|
      ensures !OccursAt(s, TemplateExtension, k)
    {
      if k + |TemplateExtension| <= |a| {
        assert s[..|a|] == a;
        OccursInPrefix(s, |a|, TemplateExtension, k);
      } else {
        var d := |a| - k;
        var w := s[k..k + |TemplateExtension|];
        assert w[d] == s[|a|] == '.';
        assert TemplateExtension[d] != '.';
      }
    }
  }

  /**
   Every occurrence of `.mimic` is replaced: a name made of pieces that hold
   no `.mimic`, joined by `.mimic`, becomes the same pieces joined by the
   literal `.{file_ext}`.
   */
  lemma {:induction false} TargetFileNameJoin(parts: seq<string>)
    requires forall i :: 0 <= i < |parts| ==> !Contains(parts[i], TemplateExtension)
    ensures TargetFileName(Join(parts, TemplateExtension)) == Join(parts, TargetExtension)
    decreases |parts|
  {
    if |parts| == 0 {
    } else if |parts| == 1 {
      ReplaceAllAbsent(parts[0], TemplateExtension, TargetExtension);
    } else {
      var p := parts[0];
      var tail := Join(parts[1..], TemplateExtension);
      var s := p + TemplateExtension + tail;
      NoOccurrenceBeforeTag(p, tail);
      ReplaceAllSkip(s, |p|, TemplateExtension, TargetExtension);
      assert s[..|p|] == p && s[|p|..] == TemplateExtension + tail;
      ReplaceAllFront(tail, TemplateExtension, TargetExtension);
      TargetFileNameJoin(parts[1..]);
    }
  }

  /** A name without `.mimic` is its own target name. */
  lemma TargetFileNameWithoutTag(name: string)
    requires !Contains(name, TemplateExtension)
    ensures TargetFileName(name) == name
  {
    TargetFileNameJoin([name]);
  }

  /** A template `stem.mimic` whose stem holds no `.mimic` targets `stem.{file_ext}`. */
  lemma TargetFileNameOfTemplate(stem: string)
    requires !Contains(stem, TemplateExtension)
    ensures TargetFileName(stem + TemplateExtension) == stem + TargetExtension
  {
    assert !Contains("", TemplateExtension);
    TargetFileNameJoin([stem, ""]);
    assert stem + TemplateExtension + "" == stem + TemplateExtension;
  }

  /** The template `HEADER.mimic` targets the file literally named `HEADER.{file_ext}`. */
  lemma TargetFileNameExample()
    ensures TargetFileName("HEADER.mimic") == "HEADER.{file_ext}"
  {
    var stem := "HEADER";
    forall p: nat
      ensures !OccursAt(stem, TemplateExtension, p)
    {
      if p == 0 {
        assert stem[0] != TemplateExtension[0];
      }
    }
    TargetFileNameOfTemplate(stem);
    assert stem + TemplateExtension == "HEADER.mimic";
    assert stem + TargetExtension == "HEADER.{file_ext}";
  }

  const SkipCiSuffix: string := " [no ci]"

  /** `skip_ci.lower() == 'yes'`, read letter by letter: `yes` in any mix of upper and lower case. */
  predicate IsYesIgnoringCase(s: string)
  {
    && |s| == 3
    && (s[0] == 'y' || s[0] == 'Y')
    && (s[1] == 'e' || s[1] == 'E')
    && (s[2] == 's' || s[2] == 'S')
  }

  /** `s.lower() == 'yes'` holds exactly when `s` is `yes` with each letter in either case. */
  lemma LowerIsYes(s: string)
    ensures Lower(s) == "yes" <==> IsYesIgnoringCase(s)
  {
    if |s| == 3 {
      assert Lower(s) == [LowerChar(s[0]), LowerChar(s[1]), LowerChar(s[2])];
    }
  }

  /**
   The final commit message: `" [no ci]"` is appended exactly when `skip_ci`
   is `yes` in any case; otherwise the message is kept as it is.
   */
  function CommitMessage(message: string, skipCi: string): (r: string)
    ensures r == message + SkipCiSuffix <==> IsYesIgnoringCase(skipCi)
    ensures r == message <==> !IsYesIgnoringCase(skipCi)
  {
    LowerIsYes(skipCi);
    if Lower(skipCi) == "yes" then message + SkipCiSuffix else message
  }
}
