/** The dataset subsetting script: it keeps the image files of a source
    folder, takes a shuffled sample of them, splits the sample into a train
    and a val part, and copies each sampled image together with its label
    file. The file system is abstracted: the image folder is its listing, the
    label folder the set of label names in it, and each destination folder the
    set of file names it holds. */
module Subset {

  /** The sample size the script asks for. */
  const TotalImages: nat := 5000

  datatype Error =
    | ImageFolderNotFound
    | LabelFolderNotFound
    | NoImages

  datatype Result<T> = Ok(value: T) | Err(error: Error)

  /** The source tree: whether the image and label folders exist, the names
      `os.listdir` gives for the image folder, and the label names present. */
  datatype SourceTree = SourceTree(
    imageDirExists: bool,
    labelDirExists: bool,
    listing: seq<string>,
    labels: set<string>)

  /** A destination pair: the files in its images folder and in its labels folder. */
  datatype DestPair = DestPair(images: set<string>, labels: set<string>)

  /** The sample and its two parts. */
  datatype Split = Split(total: nat, selected: seq<string>, train: seq<string>, val: seq<string>)

  /** What the script reports: the clamped sample size and the copy counts. */
  datatype Summary = Summary(requested: nat, trainCopied: nat, valCopied: nat)

  // ---------------------------------------------------------------------
  // Keeping the image files
  // ---------------------------------------------------------------------

  /** ASCII lower-casing of one character. */
  function LowerChar(c: char): (r: char)
    ensures r == '.' <==> c == '.'
    ensures !('A' <= r <= 'Z')
    ensures !('A' <= c <= 'Z') ==> r == c
    ensures 'A' <= c <= 'Z' ==> 'a' <= r <= 'z' && r as int - 'a' as int == c as int - 'A' as int
  {
    if 'A' <= c <= 'Z' then (c as int + 32) as char else c
  }

  /** `str.lower` on the ASCII letters. */
  function Lower(s: string): (r: string)
    ensures |r| == |s|
    ensures forall i :: 0 <= i < |s| ==> !('A' <= r[i] <= 'Z')
    ensures forall i :: 0 <= i < |s| && !('A' <= s[i] <= 'Z') ==> r[i] == s[i]
    ensures forall i :: 0 <= i < |s| && 'A' <= s[i] <= 'Z' ==>
              'a' <= r[i] <= 'z' && r[i] as int - 'a' as int == s[i] as int - 'A' as int
    ensures forall i :: 0 <= i < |s| ==> (r[i] == '.' <==> s[i] == '.')
  {
    seq(|s|, i requires 0 <= i < |s| => LowerChar(s[i]))
  }

  /** Lower-casing twice changes nothing more. */
  lemma LowerIdempotent(s: string)
    ensures Lower(Lower(s)) == Lower(s)
  {
  }

  predicate EndsWith(s: string, suffix: string) {
    |suffix| <= |s| && s[|s| - |suffix|..] == suffix
  }

  /** `f.lower().endswith(('.jpg', '.png'))`. */
  predicate IsImageName(f: string) {
    var lower := Lower(f);
    EndsWith(lower, ".jpg") || EndsWith(lower, ".png")
  }

  /** The image names of a listing: each image name occurs as often as in
      the listing, any other name not at all. */
  function FilterImages(listing: seq<string>): (r: seq<string>)
    ensures |r| <= |listing|
    ensures forall x :: multiset(r)[x] == if IsImageName(x) then multiset(listing)[x] else 0
  {
    if listing == [] then []
    else
      assert listing == [listing[0]] + listing[1..];
      (if IsImageName(listing[0]) then [listing[0]] else []) + FilterImages(listing[1..])
  }

  /** A name is kept exactly when it is listed and is an image name. */
  lemma ImageMembership(listing: seq<string>, x: string)
    ensures x in FilterImages(listing) <==> x in listing && IsImageName(x)
  {
    assert x in FilterImages(listing) <==> multiset(FilterImages(listing))[x] > 0;
    assert x in listing <==> multiset(listing)[x] > 0;
  }

  /** A lower-case letter comes from itself or from its upper-case form. */
  lemma LowerLetter(c: char, lower: char, upper: char)
    requires 'a' <= lower <= 'z' && upper as int == lower as int - 32
    ensures LowerChar(c) == lower <==> c == lower || c == upper
  {
  }

  lemma EndsWithChars(s: string, suffix: string)
    ensures EndsWith(s, suffix) <==>
              |suffix| <= |s| && forall j :: 0 <= j < |suffix| ==> s[|s| - |suffix| + j] == suffix[j]
  {
    if |suffix| <= |s| {
      var tail := s[|s| - |suffix|..];
      assert forall j :: 0 <= j < |suffix| ==> tail[j] == s[|s| - |suffix| + j];
    }
  }

  /** A name is an image name exactly when it ends in '.' followed by "jpg"
      or "png" in any mix of cases. */
  lemma ImageNameChars(f: string)
    ensures IsImageName(f) <==>
              |f| >= 4 && f[|f| - 4] == '.'
              && ((f[|f| - 3] in "jJ" && f[|f| - 2] in "pP" && f[|f| - 1] in "gG")
                  || (f[|f| - 3] in "pP" && f[|f| - 2] in "nN" && f[|f| - 1] in "gG"))
  {
    var l := Lower(f);
    EndsWithChars(l, ".jpg");
    EndsWithChars(l, ".png");
    if |f| >= 4 {
      var n := |f|;
      assert l[n - 4] == '.' <==> f[n - 4] == '.';
      assert l[n - 3] == LowerChar(f[n - 3]) && l[n - 2] == LowerChar(f[n - 2]) && l[n - 1] == LowerChar(f[n - 1]);
      LowerLetter(f[n - 3], 'j', 'J');
      LowerLetter(f[n - 3], 'p', 'P');
      LowerLetter(f[n - 2], 'p', 'P');
      LowerLetter(f[n - 2], 'n', 'N');
      LowerLetter(f[n - 1], 'g', 'G');
    }
  }

  /** Upper-case extensions are kept too. */
  lemma UpperCaseKept()
    ensures IsImageName("A.JPG") && IsImageName("b.Png")
  {
    assert Lower("A.JPG")[1..] == ".jpg" by {
      assert Lower("A.JPG")[2] == 'j' && Lower("A.JPG")[3] == 'p' && Lower("A.JPG")[4] == 'g';
    }
    assert Lower("b.Png")[1..] == ".png" by {
      assert Lower("b.Png")[2] == 'p';
    }
  }

  /** Other extensions are dropped, even when they start like an image one. */
  lemma OtherExtensionsDropped()
    ensures !IsImageName("c.jpeg") && !IsImageName("d.txt")
  {
    assert Lower("c.jpeg")[2] == 'j';
    assert Lower("d.txt")[1] == '.' && Lower("d.txt")[2] == 't';
  }

  // ---------------------------------------------------------------------
  // Sampling and splitting
  // ---------------------------------------------------------------------

  function Min(a: nat, b: nat): nat {
    if a <= b then a else b
  }

  /** `int(TRAIN_SPLIT * total)` with TRAIN_SPLIT = 0.8, i.e. the floor of 4/5 of total. */
  function TrainSize(total: nat): (k: nat)
    ensures 5 * k <= 4 * total < 5 * k + 5
  {
    (4 * total) / 5
  }

  /** Clamps the requested size to what the shuffled list holds, takes that
      prefix, and splits it at the train size. */
  function Select(shuffled: seq<string>, requested: nat): (r: Split)
    ensures r.total == Min(requested, |shuffled|)
    ensures |r.selected| == r.total && r.selected <= shuffled
    ensures r.train + r.val == r.selected
    ensures |r.train| == TrainSize(r.total) && |r.val| == r.total - TrainSize(r.total)
  {
    var total := Min(requested, |shuffled|);
    var selected := shuffled[..total];
    var k := TrainSize(total);
    assert selected[..k] + selected[k..] == selected;
    Split(total, selected, selected[..k], selected[k..])
  }

  /** Lines 40-69 of the script: the folder checks, the listing, the empty
      check, and the sample taken from `shuffled`, the listing's images in
      the order the seeded shuffle put them. */
  function Plan(src: SourceTree, requested: nat, shuffled: seq<string>): (r: Result<Split>)
    requires multiset(shuffled) == multiset(FilterImages(src.listing))
    ensures !src.imageDirExists ==> r == Err(ImageFolderNotFound)
    ensures src.imageDirExists && !src.labelDirExists ==> r == Err(LabelFolderNotFound)
    ensures src.imageDirExists && src.labelDirExists ==>
              (r.Err? <==> FilterImages(src.listing) == []) && (r.Err? ==> r.error == NoImages)
    ensures r.Ok? ==> r.value.total == Min(requested, |FilterImages(src.listing)|)
    ensures r.Ok? ==> r.value.selected <= shuffled
    ensures r.Ok? ==> r.value.train + r.value.val == r.value.selected
    ensures r.Ok? ==> r.value == Select(shuffled, requested)
  {
    if !src.imageDirExists then Err(ImageFolderNotFound)
    else if !src.labelDirExists then Err(LabelFolderNotFound)
    else
      var allImages := FilterImages(src.listing);
      if |allImages| == 0 then Err(NoImages)
      else
        assert |shuffled| == |allImages| by {
          assert |multiset(shuffled)| == |multiset(allImages)|;
        }
        Ok(Select(shuffled, requested))
  }

  /** Every sampled name is a listed image name. */
  lemma SampledAreImages(src: SourceTree, requested: nat, shuffled: seq<string>, x: string)
    requires multiset(shuffled) == multiset(FilterImages(src.listing))
    requires Plan(src, requested, shuffled).Ok?
    requires x in Plan(src, requested, shuffled).value.selected
    ensures x in src.listing && IsImageName(x)
  {
    var s := Plan(src, requested, shuffled).value.selected;
    assert x in shuffled by {
      var i :| 0 <= i < |s| && s[i] == x;
      assert shuffled[i] == x;
    }
    assert multiset(shuffled)[x] > 0;
    ImageMembership(src.listing, x);
  }

  // ---------------------------------------------------------------------
  // Distinct names
  // ---------------------------------------------------------------------

  /** No name occurs twice, as in a directory listing. */
  ghost predicate Distinct(s: seq<string>) {
    forall x :: multiset(s)[x] <= 1
  }

  lemma {:induction false} DistinctCard(s: seq<string>)
    requires Distinct(s)
    ensures |set x | x in s| == |s|
  {
    if s != [] {
      assert s == [s[0]] + s[1..];
      assert Distinct(s[1..]) by {
        forall x ensures multiset(s[1..])[x] <= 1 {
          assert multiset(s)[x] == multiset([s[0]])[x] + multiset(s[1..])[x];
        }
      }
      DistinctCard(s[1..]);
      assert multiset(s)[s[0]] == 1 + multiset(s[1..])[s[0]];
      assert s[0] !in s[1..];
      assert (set x | x in s) == {s[0]} + (set x | x in s[1..]);
    }
  }

  /** A shuffle of a listing without repeated names repeats none either. */
  lemma ShuffledDistinct(listing: seq<string>, shuffled: seq<string>)
    requires Distinct(listing)
    requires multiset(shuffled) == multiset(FilterImages(listing))
    ensures Distinct(shuffled)
  {
    forall x
      ensures multiset(shuffled)[x] <= 1
    {
      assert multiset(shuffled)[x] <= multiset(listing)[x];
    }
  }

  /** The train and val parts of a sample drawn from a list without repeated
      names repeat none and share none. */
  lemma SelectDisjoint(shuffled: seq<string>, requested: nat)
    requires Distinct(shuffled)
    ensures Distinct(Select(shuffled, requested).train)
    ensures Distinct(Select(shuffled, requested).val)
    ensures forall x :: x in Select(shuffled, requested).train ==> x !in Select(shuffled, requested).val
  {
    var p := Select(shuffled, requested);
    assert shuffled == p.train + p.val + shuffled[p.total..];
    forall x
      ensures multiset(p.train)[x] + multiset(p.val)[x] <= 1
    {
      assert multiset(shuffled)[x] == multiset(p.train)[x] + multiset(p.val)[x] + multiset(shuffled[p.total..])[x];
    }
    forall x | x in p.train
      ensures x !in p.val
    {
      assert multiset(p.train)[x] >= 1;
    }
  }

  /** A listing without repeated names has a sample whose train and val parts
      repeat no image and share none. */
  lemma DisjointParts(src: SourceTree, requested: nat, shuffled: seq<string>)
    requires Distinct(src.listing)
    requires multiset(shuffled) == multiset(FilterImages(src.listing))
    requires Plan(src, requested, shuffled).Ok?
    ensures Distinct(Plan(src, requested, shuffled).value.train)
    ensures Distinct(Plan(src, requested, shuffled).value.val)
    ensures forall x :: x in Plan(src, requested, shuffled).value.train ==> x !in Plan(src, requested, shuffled).value.val
  {
    ShuffledDistinct(src.listing, shuffled);
    SelectDisjoint(shuffled, requested);
  }

  // ---------------------------------------------------------------------
  // Label names
  // ---------------------------------------------------------------------

  /** `str.rfind` for one character: the last index of c in s, or -1. */
  function LastIndexOf(s: string, c: char): (r: int)
    ensures -1 <= r < |s|
    ensures r >= 0 ==> s[r] == c
  {
    if s == [] then -1
    else if s[|s| - 1] == c then |s| - 1
    else LastIndexOf(s[..|s| - 1], c)
  }

  /** No occurrence of c follows the one `LastIndexOf` finds. */
  lemma {:induction false} LastIndexOfIsLast(s: string, c: char)
    ensures forall i :: LastIndexOf(s, c) < i < |s| ==> s[i] != c
  {
    if s != [] && s[|s| - 1] != c {
      var init := s[..|s| - 1];
      LastIndexOfIsLast(init, c);
      assert forall i :: 0 <= i < |init| ==> init[i] == s[i];
    }
  }

  /** Whether a text consists of dots only (the empty text does). */
  predicate AllDots(s: string) {
    s == [] || (s[0] == '.' && AllDots(s[1..]))
  }

  lemma {:induction false} AllDotsChars(s: string)
    ensures AllDots(s) <==> forall i :: 0 <= i < |s| ==> s[i] == '.'
  {
    if s != [] {
      AllDotsChars(s[1..]);
      assert forall i :: 1 <= i < |s| ==> s[i] == s[1..][i - 1];
    }
  }

  /** An extension as `os.path.splitext` returns it: empty, or a '.' followed
      by characters that are neither '.' nor '/'. */
  predicate IsExtension(ext: string) {
    ext == [] || (ext[0] == '.' && forall j :: 0 <= j < |ext| ==> (j > 0 ==> ext[j] != '.') && ext[j] != '/')
  }

  /** `os.path.splitext` for '/'-separated paths: the extension starts at the
      last '.' after the last '/', unless only dots precede it in the file name. */
  function SplitExt(p: string): (string, string) {
    var sepIndex := LastIndexOf(p, '/');
    var dotIndex := LastIndexOf(p, '.');
    if dotIndex > sepIndex && !AllDots(p[sepIndex + 1..dotIndex]) then
      (p[..dotIndex], p[dotIndex..])
    else
      (p, [])
  }

  /** The extension `splitext` finds is empty or a '.' followed by
      characters that are neither '.' nor '/'. */
  lemma SplitExtShape(p: string)
    ensures SplitExt(p).0 + SplitExt(p).1 == p
    ensures IsExtension(SplitExt(p).1)
  {
    var sepIndex := LastIndexOf(p, '/');
    var dotIndex := LastIndexOf(p, '.');
    if dotIndex > sepIndex && !AllDots(p[sepIndex + 1..dotIndex]) {
      LastIndexOfIsLast(p, '/');
      LastIndexOfIsLast(p, '.');
      ExtensionShape(p, sepIndex, dotIndex);
    }
  }

  /** The text from a '.' followed by no '.', with no '/' after an earlier
      position, is an extension. */
  lemma ExtensionShape(p: string, sepIndex: int, dotIndex: int)
    requires -1 <= sepIndex < dotIndex < |p| && p[dotIndex] == '.'
    requires forall i :: dotIndex < i < |p| ==> p[i] != '.'
    requires forall i :: sepIndex < i < |p| ==> p[i] != '/'
    ensures p[..dotIndex] + p[dotIndex..] == p
    ensures IsExtension(p[dotIndex..])
  {
    var ext := p[dotIndex..];
    forall j | 0 <= j < |ext|
      ensures (j > 0 ==> ext[j] != '.') && ext[j] != '/'
    {
      assert ext[j] == p[dotIndex + j];
    }
  }

  /** `os.path.splitext(img)[0] + ".txt"`. */
  function LabelName(img: string): string {
    SplitExt(img).0 + ".txt"
  }

  /** A label name is a prefix of the image name followed by ".txt". */
  lemma LabelNameShape(img: string)
    ensures |LabelName(img)| >= 4
    ensures LabelName(img)[|LabelName(img)| - 4..] == ".txt"
    ensures LabelName(img)[..|LabelName(img)| - 4] <= img
  {
    SplitExtShape(img);
    var root := SplitExt(img).0;
    assert LabelName(img)[..|LabelName(img)| - 4] == root;
  }

  /** The last four characters of an image name are a '.' and three
      characters other than '.'. */
  lemma ImageSuffix(f: string)
    requires IsImageName(f)
    ensures |f| >= 4 && f[|f| - 4] == '.'
    ensures forall j :: |f| - 4 < j < |f| ==> f[j] != '.'
  {
    ImageNameChars(f);
  }

  /** An image name with something other than dots before its extension has
      that extension replaced by ".txt"; dots earlier in the name stay. */
  lemma ImageLabelName(f: string)
    requires IsImageName(f) && '/' !in f
    requires !AllDots(f[..|f| - 4])
    ensures LabelName(f) == f[..|f| - 4] + ".txt"
  {
    ImageSuffix(f);
    SplitsAt(f, |f| - 4);
  }

  /** Where a name holds no '/' and its last '.' is at `dotIndex`, `splitext`
      cuts there unless only dots come before it. */
  lemma SplitsAt(p: string, dotIndex: nat)
    requires dotIndex < |p| && p[dotIndex] == '.'
    requires forall i :: dotIndex < i < |p| ==> p[i] != '.'
    requires '/' !in p
    ensures SplitExt(p) == if AllDots(p[..dotIndex]) then (p, []) else (p[..dotIndex], p[dotIndex..])
  {
    LastIndexOfIsLast(p, '.');
    assert LastIndexOf(p, '.') == dotIndex;
    assert LastIndexOf(p, '/') == -1;
    assert p[0..dotIndex] == p[..dotIndex];
  }

  /** A stem with a non-dot character and no '/', followed by a '.' and three
      characters that are neither '.' nor '/', gets the label stem + ".txt". */
  lemma LabelOfStem(stem: string, ext: string)
    requires !AllDots(stem) && '/' !in stem
    requires |ext| == 4 && ext[0] == '.'
    requires forall j :: 1 <= j < 4 ==> ext[j] != '.' && ext[j] != '/'
    ensures LabelName(stem + ext) == stem + ".txt"
  {
    var f := stem + ext;
    assert f[..|stem|] == stem;
    assert forall i :: |stem| < i < |f| ==> f[i] == ext[i - |stem|];
    assert '/' !in f by {
      assert forall i :: 0 <= i < |f| ==> f[i] != '/';
    }
    SplitsAt(f, |stem|);
  }

  lemma LabelNameExamples()
    ensures LabelName("a.b.jpg") == "a.b.txt"
    ensures LabelName("IMG_1.PNG") == "IMG_1.txt"
  {
    assert "a.b"[0] == 'a';
    LabelOfStem("a.b", ".jpg");
    assert "a.b" + ".jpg" == "a.b.jpg";
    assert "IMG_1"[0] == 'I';
    LabelOfStem("IMG_1", ".PNG");
    assert "IMG_1" + ".PNG" == "IMG_1.PNG";
  }

  /** A name whose last '.' is preceded only by dots has no extension for
      `splitext`: its label keeps the whole name. */
  lemma DotsOnlyStem(f: string, k: nat)
    requires k < |f| && f[k] == '.'
    requires forall i :: k < i < |f| ==> f[i] != '.'
    requires forall i :: 0 <= i < k ==> f[i] == '.'
    requires '/' !in f
    ensures LabelName(f) == f + ".txt"
  {
    SplitsAt(f, k);
    AllDotsChars(f[..k]);
  }

  /** A name that is only an extension, such as ".jpg", has no extension. */
  lemma DotOnlyName()
    ensures LabelName(".jpg") == ".jpg.txt"
  {
    var f := ".jpg";
    assert f[0] == '.' && f[1] == 'j' && f[2] == 'p' && f[3] == 'g';
    DotsOnlyStem(f, 0);
  }

  /** Two images that differ only in their extension share one label file. */
  lemma SharedLabel(stem: string)
    requires !AllDots(stem) && '/' !in stem
    ensures LabelName(stem + ".jpg") == stem + ".txt"
    ensures LabelName(stem + ".png") == stem + ".txt"
  {
    LabelOfStem(stem, ".jpg");
    LabelOfStem(stem, ".png");
  }

  // ---------------------------------------------------------------------
  // Copying
  // ---------------------------------------------------------------------

  /** How a label file name is derived from an image name: `LabelName` in
      the script. The copying functions and the counting lemmas below hold for
      any such naming. */
  type Naming = string -> string

  /** The entries of `images` whose label exists, in list order. */
  function Copied(images: seq<string>, labels: set<string>, labelOf: Naming): (r: seq<string>)
    ensures |r| <= |images|
  {
    if images == [] then []
    else
      var init := images[..|images| - 1];
      var last := images[|images| - 1];
      Copied(init, labels, labelOf) + (if labelOf(last) in labels then [last] else [])
  }

  /** Each entry whose label exists is copied as often as it is listed, any
      other entry never. */
  lemma {:induction false} CopiedMultiset(images: seq<string>, labels: set<string>, labelOf: Naming, x: string)
    ensures multiset(Copied(images, labels, labelOf))[x] == if labelOf(x) in labels then multiset(images)[x] else 0
  {
    if images != [] {
      var init := images[..|images| - 1];
      var last := images[|images| - 1];
      assert images == init + [last];
      CopiedMultiset(init, labels, labelOf, x);
    }
  }

  /** An entry is copied exactly when it is in the list and its label exists. */
  lemma CopiedMembership(images: seq<string>, labels: set<string>, labelOf: Naming, x: string)
    ensures x in Copied(images, labels, labelOf) <==> x in images && labelOf(x) in labels
  {
    CopiedMultiset(images, labels, labelOf, x);
    assert x in Copied(images, labels, labelOf) <==> multiset(Copied(images, labels, labelOf))[x] > 0;
    assert x in images <==> multiset(images)[x] > 0;
  }

  /** The images a copy of `images` writes: those whose label exists. */
  function CopiedImages(images: seq<string>, labels: set<string>, labelOf: Naming): set<string> {
    set x | x in images && labelOf(x) in labels
  }

  /** The label files a copy of `images` writes. */
  function CopiedLabels(images: seq<string>, labels: set<string>, labelOf: Naming): set<string> {
    set x | x in images && labelOf(x) in labels :: labelOf(x)
  }

  /** One more entry is counted, and adds its image and its label, exactly
      when its label exists. */
  lemma CopiedStep(images: seq<string>, labels: set<string>, labelOf: Naming, img: string)
    ensures Copied(images + [img], labels, labelOf)
         == Copied(images, labels, labelOf) + (if labelOf(img) in labels then [img] else [])
    ensures CopiedImages(images + [img], labels, labelOf)
         == CopiedImages(images, labels, labelOf) + (if labelOf(img) in labels then {img} else {})
    ensures CopiedLabels(images + [img], labels, labelOf)
         == CopiedLabels(images, labels, labelOf) + (if labelOf(img) in labels then {labelOf(img)} else {})
  {
    var xs := images + [img];
    assert xs[..|images|] == images;
    assert forall x :: x in xs <==> x in images || x == img;
  }

  /** The same step, for the prefixes of one list. */
  lemma CopiedStepAt(images: seq<string>, labels: set<string>, labelOf: Naming, i: nat)
    requires i < |images|
    ensures |Copied(images[..i + 1], labels, labelOf)|
         == |Copied(images[..i], labels, labelOf)| + (if labelOf(images[i]) in labels then 1 else 0)
    ensures CopiedImages(images[..i + 1], labels, labelOf)
         == CopiedImages(images[..i], labels, labelOf) + (if labelOf(images[i]) in labels then {images[i]} else {})
    ensures CopiedLabels(images[..i + 1], labels, labelOf)
         == CopiedLabels(images[..i], labels, labelOf)
            + (if labelOf(images[i]) in labels then {labelOf(images[i])} else {})
  {
    assert images[..i + 1] == images[..i] + [images[i]];
    CopiedStep(images[..i], labels, labelOf, images[i]);
  }

  /** `copy_files`: copies each image whose label exists into `dest.images`
      and its label into `dest.labels`, and counts the copies. */
  method CopyFiles(images: seq<string>, labels: set<string>, dest: DestPair)
    returns (copied: nat, dest': DestPair)
    ensures copied == |Copied(images, labels, LabelName)| && copied <= |images|
    ensures dest'.images == dest.images + CopiedImages(images, labels, LabelName)
    ensures dest'.labels == dest.labels + CopiedLabels(images, labels, LabelName)
  {
    copied := 0;
    dest' := dest;
    for i := 0 to |images|
      invariant copied == |Copied(images[..i], labels, LabelName)|
      invariant dest'.images == dest.images + CopiedImages(images[..i], labels, LabelName)
      invariant dest'.labels == dest.labels + CopiedLabels(images[..i], labels, LabelName)
    {
      var img := images[i];
      var lbl := LabelName(img);
      CopiedStepAt(images, labels, LabelName, i);
      if lbl in labels {
        dest' := DestPair(dest'.images + {img}, dest'.labels + {lbl});
        copied := copied + 1;
      }
    }
    assert images[..|images|] == images;
  }

  /** `count_files`: the number of files in a folder. */
  function CountFiles(folder: set<string>): nat {
    |folder|
  }

  /** Copying a list without repeated names into an empty images folder leaves
      as many files there as were counted. */
  lemma {:induction false} CountMatchesCopies(images: seq<string>, labels: set<string>, labelOf: Naming)
    requires Distinct(images)
    ensures CountFiles(CopiedImages(images, labels, labelOf)) == |Copied(images, labels, labelOf)|
  {
    var c := Copied(images, labels, labelOf);
    assert Distinct(c) by {
      forall x ensures multiset(c)[x] <= 1 {
        CopiedMultiset(images, labels, labelOf, x);
      }
    }
    DistinctCard(c);
    forall x ensures x in c <==> x in images && labelOf(x) in labels {
      CopiedMembership(images, labels, labelOf, x);
    }
    assert (set x | x in c) == CopiedImages(images, labels, labelOf);
  }

  /** The labels folder never gains more files than images were copied. */
  lemma {:induction false} LabelsAtMostCopies(images: seq<string>, labels: set<string>, labelOf: Naming)
    ensures |CopiedLabels(images, labels, labelOf)| <= |Copied(images, labels, labelOf)|
  {
    if images != [] {
      var init := images[..|images| - 1];
      var last := images[|images| - 1];
      assert images == init + [last];
      LabelsAtMostCopies(init, labels, labelOf);
      CopiedStep(init, labels, labelOf, last);
    }
  }

  /** Two different images with the same existing label are both copied and
      counted, and write one label file. */
  lemma SharedLabelCopies(a: string, b: string, lbl: string, labelOf: Naming)
    requires a != b && labelOf(a) == lbl && labelOf(b) == lbl
    ensures Copied([a, b], {lbl}, labelOf) == [a, b]
    ensures |CopiedImages([a, b], {lbl}, labelOf)| == 2
    ensures CopiedLabels([a, b], {lbl}, labelOf) == {lbl}
  {
    assert [a, b][..1] == [a];
    assert [a][..0] == [];
    assert CopiedImages([a, b], {lbl}, labelOf) == {a, b};
    assert |{a, b}| == 2;
  }

  /** `a.jpg` and `a.png` with the one label `a.txt`: both images are copied
      and counted, and the labels folder gains one file. */
  lemma TwoImagesOneLabel(stem: string)
    requires !AllDots(stem) && '/' !in stem
    ensures Copied([stem + ".jpg", stem + ".png"], {stem + ".txt"}, LabelName) == [stem + ".jpg", stem + ".png"]
    ensures |CopiedImages([stem + ".jpg", stem + ".png"], {stem + ".txt"}, LabelName)| == 2
    ensures CopiedLabels([stem + ".jpg", stem + ".png"], {stem + ".txt"}, LabelName) == {stem + ".txt"}
  {
    SharedLabel(stem);
    ExtensionsDiffer(stem);
    SharedLabelCopies(stem + ".jpg", stem + ".png", stem + ".txt", LabelName);
  }

  lemma ExtensionsDiffer(stem: string)
    ensures stem + ".jpg" != stem + ".png"
  {
    assert (stem + ".jpg")[|stem| + 1] == 'j';
    assert (stem + ".png")[|stem| + 1] == 'p';
  }

  // ---------------------------------------------------------------------
  // The script
  // ---------------------------------------------------------------------

  /** The script body: checks the source folders, samples `TotalImages`
      images from `shuffled`, and copies the train part into `train` and the
      val part into `val`. On an error nothing is copied. */
  method CreateSubset(src: SourceTree, shuffled: seq<string>, train: DestPair, val: DestPair)
    returns (r: Result<Summary>, train': DestPair, val': DestPair)
    requires multiset(shuffled) == multiset(FilterImages(src.listing))
    ensures r.Err? <==> Plan(src, TotalImages, shuffled).Err?
    ensures r.Err? ==> r.error == Plan(src, TotalImages, shuffled).error && train' == train && val' == val
    ensures r.Ok? ==>
              var p := Plan(src, TotalImages, shuffled).value;
              r.value == Summary(p.total, |Copied(p.train, src.labels, LabelName)|, |Copied(p.val, src.labels, LabelName)|)
              && r.value.requested == Min(TotalImages, |FilterImages(src.listing)|)
              && r.value.trainCopied <= |p.train| && r.value.valCopied <= |p.val|
              && train'.images == train.images + CopiedImages(p.train, src.labels, LabelName)
              && val'.images == val.images + CopiedImages(p.val, src.labels, LabelName)
              && train'.labels == train.labels + CopiedLabels(p.train, src.labels, LabelName)
              && val'.labels == val.labels + CopiedLabels(p.val, src.labels, LabelName)
    ensures r.Ok? && Distinct(src.listing) && train == val == DestPair({}, {}) ==>
              CountFiles(train'.images) == r.value.trainCopied && CountFiles(val'.images) == r.value.valCopied
              && CountFiles(train'.labels) <= r.value.trainCopied && CountFiles(val'.labels) <= r.value.valCopied
  {
    var plan := Plan(src, TotalImages, shuffled);
    if plan.Err? {
      return Err(plan.error), train, val;
    }
    var p := plan.value;
    var trainCopied, valCopied;
    trainCopied, train' := CopyFiles(p.train, src.labels, train);
    valCopied, val' := CopyFiles(p.val, src.labels, val);
    r := Ok(Summary(p.total, trainCopied, valCopied));
    LabelsAtMostCopies(p.train, src.labels, LabelName);
    LabelsAtMostCopies(p.val, src.labels, LabelName);
    if Distinct(src.listing) {
      DisjointParts(src, TotalImages, shuffled);
      CountMatchesCopies(p.train, src.labels, LabelName);
      CountMatchesCopies(p.val, src.labels, LabelName);
    }
  }
}
