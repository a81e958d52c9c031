# Frame throttling and dataset subsetting, modelled in Dafny

The repository wraps a pretrained object detector in two web front ends and a
few command-line scripts. Two pieces of its own logic are modelled here.

**Webcam frame processor** (`frame_throttle.dfy`, module `FrameThrottle`,
from `app.py`). `VideoProcessor` is a class with one integer field,
`frameCount`. A fresh processor starts at 0. `Recv` adds 1 to the counter on
every frame. When the new value is a multiple of 10, the frame's bgr24 array
goes to the detector and the annotated array comes back as the output frame.
Otherwise the frame's own pixels come back unchanged. The detector
(`model.predict(img, imgsz=160, conf=0.25)[0].plot()`) is a function-typed
parameter, `Detector`, about which nothing is assumed. A ghost log,
`detectorCalls`, records the frame numbers on which the detector ran. The
object invariant ties that log to `DetectedFrames(frameCount)`, the multiples
of 10 up to the counter. `RunSession` stands for the video stream: it
creates a processor and calls `Recv` on a sequence of frames, one call at a
time. Those frames are the ones that reach `recv`. Which camera frames the
stream library passes on is up to that library, so the counter counts `recv`
calls, not camera frames. The contract of `RunSession` states the outputs of
a whole session and the final counter. It also states that exactly `k / 10`
of `k` frames reach the detector. Of frames 1..25, only 10
and 20 do.

**Dataset subsetting** (`subset.dfy`, module `Subset`, from `subset.py`).
The file system is abstracted:

- `SourceTree` holds whether the image and label folders exist, the image
  folder's listing, and the set of label names present.
- `DestPair` holds the file names in one destination pair (an images folder
  and a labels folder).

The script's steps become these members:

- `FilterImages` keeps the names whose lower-cased form ends in `.jpg` or
  `.png`.
- `Plan` checks that the folders exist and that the image listing is not
  empty. It then clamps the requested count, takes that prefix of the
  shuffled list and splits it at `int(0.8 * n)`, modelled as `(4 * n) / 5`.
- `LabelName` models `os.path.splitext(img)[0] + ".txt"`, including
  `splitext`'s rule that leading dots do not start an extension.
- `CopyFiles` is the counting loop of `copy_files`. The functions that
  specify it (`Copied`, `CopiedImages`, `CopiedLabels`) take the label
  naming as a parameter, and `CopyFiles` passes `LabelName`. So the
  counting lemmas hold for any naming, and the lemmas about `splitext`
  stay apart from them.
- `CreateSubset` is the script body.

The seeded shuffle is not modelled. The caller supplies the shuffled list,
which must hold exactly the filtered listing's names.

One property the proofs bring out: two images that differ only in their
extension (`a.jpg` and `a.png`) share the label `a.txt`. Both images are
copied and counted, but the labels folder gains only one file. So the label
count that the script prints at the end can be smaller than the image count
(`TwoImagesOneLabel`, `LabelsAtMostCopies`).

The stride is fixed at 10 here, as `app.py` has it; it is not a configurable
parameter. Frames are counted before the modulo test, as in `app.py`. Whether
the annotated frame keeps the input's dimensions is up to the detector
library, so the model does not promise it.

## Model

| member | source | states |
|---|---|---|
| FrameThrottle.VideoProcessor.constructor | app.py:7-8 | a new processor's counter is 0 and no frame has reached the detector |
| FrameThrottle.VideoProcessor.Recv | app.py:10-23 | the counter grows by exactly 1 whichever branch runs; the detector runs iff the new count is a multiple of 10, and then it runs on the input pixels with size 160 and confidence 0.25; otherwise the output is the input frame itself; the detector log stays equal to the multiples of 10 up to the counter |
| FrameThrottle.RunsDetector | app.py:16 | the test `frame_count % 10 == 0`; DetectedFramesComplete and DetectedFramesCount state which calls pass it |
| FrameThrottle.Respond | app.py:12-23 | on a call whose count is not a multiple of 10 the returned frame equals the input; otherwise it is the detector's output on the input's bgr24 array |
| FrameThrottle.DetectedFrames | app.py:11-18 | the frame numbers that reach the detector among 1..n are all in 1..n, multiples of 10, and strictly increasing |
| FrameThrottle.DetectedFramesComplete | app.py:16 | every multiple of 10 in 1..n is among the detected frames |
| FrameThrottle.DetectedFramesCount | app.py:8-18 | exactly n / 10 (integer division) of the first n frames reach the detector |
| FrameThrottle.TwentyFiveFrames | app.py:8-23 | of frames 1..25, exactly frames 10 and 20 reach the detector |
| FrameThrottle.SessionFrom | app.py:10-23 | the outputs of consecutive `recv` calls from a given counter value; SessionLength and SessionAt state their number and each one's value |
| FrameThrottle.SessionLength | app.py:10-23 | a run of calls returns one frame per frame received |
| FrameThrottle.SessionAt | app.py:10-23 | the i-th output of calls starting at counter value s is the response to frame number s + i + 1 |
| FrameThrottle.PassThrough | app.py:22-23 | from a fresh processor, every frame whose number is not a multiple of 10 comes back equal to its input |
| FrameThrottle.RunSession | app.py:26-36 | a stream feeding k frames to a fresh processor returns the session's outputs, leaves the counter at k, and runs the detector on exactly the frames numbered 10, 20, ... up to k, which are k / 10 in number |
| Subset.LowerChar | subset.py:51 | an ASCII upper-case letter becomes the lower-case letter at the same place in the alphabet; every other character is kept; so no character is mapped to or from '.' and no 'A'..'Z' remains |
| Subset.Lower | subset.py:51 | the lower-cased name has the same length; each 'A'..'Z' becomes the matching 'a'..'z' at its position, every other character stays in place, so no 'A'..'Z' remains and dots stay where they are |
| Subset.LowerIdempotent | subset.py:51 | lower-casing an already lower-cased name changes nothing |
| Subset.IsImageName | subset.py:51 | the image test: the lower-cased name ends in .jpg or .png; ImageNameChars states exactly which names pass |
| Subset.ImageNameChars | subset.py:51 | a name passes the image test iff it ends in '.' followed by j/J, p/P, g/G or p/P, n/N, g/G, in any mix of cases |
| Subset.LowerLetter | subset.py:51 | a character lower-cases to a given lower-case letter iff it is that letter or its upper-case form |
| Subset.FilterImages | subset.py:50-51 | each name whose lower-cased form ends in .jpg or .png appears as often as in the listing, and no other name appears |
| Subset.ImageMembership | subset.py:50-51 | a name is in the filtered list iff it is listed and is an image name |
| Subset.UpperCaseKept | subset.py:51 | A.JPG and b.Png count as images, since the test is made on the lower-cased name |
| Subset.OtherExtensionsDropped | subset.py:51 | c.jpeg and d.txt do not count as images |
| Subset.TrainSize | subset.py:67 | the split index is the floor of 4/5 of the sample size |
| Subset.Select | subset.py:59-69 | the sample size is min(requested, available); the sample is that prefix of the shuffled list; train followed by val is exactly the sample, with train of size floor(4n/5) and val the rest |
| Subset.Plan | subset.py:40-69 | a missing image folder, then a missing label folder, raises first; with both present, an error occurs iff no image name is listed; otherwise the sample has size min(requested, image count), is a prefix of the shuffled list, and is split into train and val |
| Subset.SampledAreImages | subset.py:50-65 | every sampled name is a listed image name |
| Subset.DistinctCard | subset.py:113-117 | a list with no repeated name holds as many distinct names as entries |
| Subset.ShuffledDistinct | subset.py:50-63 | shuffling the image names of a listing without repeats yields a list without repeats |
| Subset.SelectDisjoint | subset.py:65-69 | the train and val parts cut from a list without repeats have no repeats and share no name |
| Subset.DisjointParts | subset.py:50-69 | when the listing has no repeated name, the planned train and val parts have no repeated name and share none |
| Subset.LastIndexOf | subset.py:79 | the result is -1 or a position holding the character |
| Subset.LastIndexOfIsLast | subset.py:79 | no occurrence of the character comes after the position found, so -1 means it does not occur |
| Subset.AllDotsChars | subset.py:79 | the recursive all-dots test holds iff every character is '.' |
| Subset.SplitExt | subset.py:79 | `os.path.splitext` for '/'-separated names; what it returns is stated by SplitExtShape (root + extension is the name, the extension is empty or '.' plus non-'.' non-'/' characters) and SplitsAt (where it cuts) |
| Subset.SplitExtShape | subset.py:79 | root followed by extension gives back the name; the extension is empty or a '.' followed by characters that are neither '.' nor '/' |
| Subset.ExtensionShape | subset.py:79 | the text from a last '.' that follows the last '/' is a valid extension, and cutting there splits the name |
| Subset.SplitsAt | subset.py:79 | for a name without '/', splitext cuts at the last '.' unless only dots precede it, in which case the extension is empty |
| Subset.LabelName | subset.py:79 | the label `os.path.splitext(img)[0] + ".txt"`; LabelNameShape, ImageLabelName, DotsOnlyStem and SharedLabel state its value |
| Subset.LabelNameShape | subset.py:79 | every label name is a prefix of the image name followed by .txt |
| Subset.ImageSuffix | subset.py:50-51 | an image name ends in a '.' followed by three characters other than '.' |
| Subset.ImageLabelName | subset.py:79 | an image name with a non-dot character before its 4-character extension gets the label name with that extension replaced by .txt |
| Subset.LabelOfStem | subset.py:79 | a stem with a non-dot character followed by a '.' and three plain characters gets the label stem.txt |
| Subset.LabelNameExamples | subset.py:79 | a.b.jpg gives a.b.txt and IMG_1.PNG gives IMG_1.txt |
| Subset.DotsOnlyStem | subset.py:79 | a name whose last '.' has only dots before it has no extension, so its label is the whole name plus .txt |
| Subset.DotOnlyName | subset.py:79 | .jpg has no extension for splitext, so its label is .jpg.txt |
| Subset.SharedLabel | subset.py:79 | for any stem with a non-dot character and no '/', stem.jpg and stem.png both give the label stem.txt |
| Subset.Copied | subset.py:76-87 | at most as many entries are copied as are listed |
| Subset.CopiedMultiset | subset.py:84-87 | an entry whose label exists is copied as often as it is listed; any other entry is never copied |
| Subset.CopiedMembership | subset.py:84 | an entry is copied iff it is in the list and its label exists |
| Subset.CopiedImages | subset.py:84-85 | the images a copy writes, those listed whose label exists; CopiedStep and CountMatchesCopies state its growth and size |
| Subset.CopiedLabels | subset.py:84-86 | the label files a copy writes, the labels of listed images that exist; CopiedStep and LabelsAtMostCopies state its growth and size |
| Subset.CopiedStep | subset.py:78-87 | one more entry adds 1 to the count, its image and its label iff its label exists |
| Subset.CopiedStepAt | subset.py:78-87 | the same step for the i-th entry of a list: the count and both folders change only when that entry's label exists |
| Subset.CopyFiles | subset.py:75-89 | the returned count is the number of list entries whose label exists, at most the list length; each destination folder gains exactly those images and their labels, and nothing else is written |
| Subset.CountFiles | subset.py:113-117 | the number of files in a folder, the size of its set of names; CountMatchesCopies and LabelsAtMostCopies bound it |
| Subset.CountMatchesCopies | subset.py:113-120 | copying a list with no repeated name into an empty images folder leaves exactly as many files there as were counted |
| Subset.LabelsAtMostCopies | subset.py:113-121 | a labels folder never gains more files than images were copied |
| Subset.SharedLabelCopies | subset.py:78-87 | two different images whose label names coincide and exist are both copied and counted, while the labels folder gains one file |
| Subset.TwoImagesOneLabel | subset.py:79-87 | stem.jpg and stem.png with the one label stem.txt are both copied, while the labels folder gains one file |
| Subset.CreateSubset | subset.py:40-97 | a missing folder or an empty image listing is an error and nothing is copied; otherwise the reported size is min(5000, image count), the two counts are the copies of the train and val parts, and each destination gains exactly those images and labels; from empty destinations and a listing without repeats, each images folder holds exactly as many files as were counted, and each labels folder at most that many |

## Left out

- Streamlit UI (`st.subheader` and the rest of the page) and the `webrtc_streamer` configuration: the key, mode, RTC configuration and media constraints. These are UI and video transport.
- `async_processing=True`: the stream library may run `recv` on its own worker and decides which camera frames reach it. That library is not part of this model. The model treats `recv` calls as sequential, and its frames are the ones handed to `recv`.
- PyAV conversion: a frame is identified with its bgr24 array. Colour conversion from other pixel formats, and frame metadata such as timestamps that `from_ndarray` does not carry over, are not modelled.
- The detector's behaviour, including its failures. It is an uninterpreted parameter, so a failing detector call is not modelled.
- `app.py` is a fragment: `option`, `st`, `model`, `av`, `webrtc_streamer` and `RTC_CONFIGURATION` are defined outside the file. The `model` global becomes the `Detector` parameter of `Recv`.
- `random.seed(42)` and `random.shuffle`: Python's generator is not modelled. The caller supplies the shuffled list, which must be a permutation of the filtered listing. Two runs with the same shuffled list give the same subset, because every member here is deterministic.
- File system effects are abstracted to sets of names: `os.makedirs`, `os.listdir`, `os.path.exists`, `shutil.copy2` (file contents and metadata), and I/O errors during a copy. Destination folders are assumed to exist, as `makedirs` ensures at lines 33-34. A listed entry that is a directory is treated like a file. Names are compared exactly, so case-insensitive file systems are not modelled: there `os.path.exists` would find `A.TXT` for `a.txt`, and `A.jpg` and `a.jpg` would collide in one destination folder. Names are sequences of Unicode scalar values. On POSIX, `os.listdir` turns undecodable bytes into lone surrogates (U+DC80..U+DCFF), which a Dafny `char` cannot hold. Such names are outside the model, although the script filters, splits and copies them like any other name.
- The `print` summaries are not modelled. Their values are the fields of `Summary`.
- `count_files` is modelled as the size of a destination set. Its `isfile` filter has nothing to filter in this model.
- Subset.Lower: models ASCII case mapping only, not all of Unicode. For the `.jpg`/`.png` suffix test the result is the same, because no non-ASCII character lower-cases to `.`, `j`, `p`, `g` or `n`.
- Subset.TrainSize: models `int(0.8 * n)` as the exact `(4 * n) / 5`, not the double-precision product. They agree for all sample sizes far beyond the 5000 used here. The double nearest 0.8 is slightly above it, so the product never rounds below an exact integer.
- `predict.py`, `evaluate.py` and `train.py` are not part of this model. They are fixed-argument calls into the detector library.
- `streamlit app.py` is not part of this model. It is a second Streamlit page, which is UI outside the model:
  - start/stop buttons kept in session state;
  - a webcam loop that calls `model.predict` on every frame with no counter (lines 56-71);
  - an upload path that writes annotated images as `pred_<name>` files (lines 86-102).
