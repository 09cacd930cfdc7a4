# faceblur in Dafny

faceblur.py is a small script that blurs every face in JPEG photos. It
mirrors a source directory tree into a destination tree. This project models
the script's three pieces of deterministic logic and proves what they promise:

- `face_blur` (module `FaceBlur`, over the pure model in `Regions`):
  - the photo is a two-dimensional array that is changed in place;
  - every detected box `(top, right, bottom, left)` is multiplied by `zoom_in`;
  - numpy's half-open, clamped slice `photo[top:bottom, left:right]` is cut
    out, blurred and assigned back, box after box in detection order;
  - with no detected face the photo is written as read and the result is
    `False`, otherwise the result is `True`.

  The blur is a kernel parameter: given the cut-out region and a position in
  it, it yields the blurred pixel there. A blurred region therefore always has
  its region's shape. The detector's result is a parameter too.
- `blur_photo` (module `PhotoFiles`, over `PosixPath`):
  - a file is processed exactly when `os.path.splitext` gives the literal
    extension `.jpg`;
  - it is read from `join(root, f)` and written to
    `join(new_root_path, basename(f))`.

  `splitext`, `basename` and `join` follow Python's `posixpath`.
- `blur_all_photo` (module `Mirror`):
  - absolute paths are component sequences;
  - each walked directory is mapped to the destination root joined with its
    path relative to the source root, lexically normalised;
  - `os.makedirs(..., exist_ok=True)` adds the directory and its ancestors to
    the set of existing directories;
  - each file of the directory is handed to `blur_photo`.

  The method returns the resulting directory set and the `face_blur` calls,
  as (source, destination) tasks in call order.

## Model

| member | source | states |
|---|---|---|
| PosixPath.LastIndex | faceblur.py:68 | the index found holds the character and no later position does; -1 when it is absent |
| PosixPath.SplitExt | faceblur.py:65 | `os.path.splitext`; SplitExtParts and SplitExtIff state what it returns |
| PosixPath.SplitExtParts | faceblur.py:65 | stem + extension is the name; a non-empty extension is one dot followed by no dot and no separator |
| PosixPath.SplitExtIff | faceblur.py:65 | a name has an extension exactly when its final component has a dot preceded by some non-dot character (leading dots do not count) |
| PosixPath.Basename | faceblur.py:68 | `os.path.basename`; BasenameParts states what it returns |
| PosixPath.BasenameParts | faceblur.py:68 | the basename is the separator-free suffix of the path that starts right after its last separator, and a name without a separator is its own basename |
| PosixPath.Join | faceblur.py:67-68 | two-argument `os.path.join`; JoinParts states what it returns |
| PosixPath.JoinParts | faceblur.py:67-68 | an absolute second part replaces the first; otherwise the result is the first part, then exactly one separator when the first part is non-empty and does not end in one (nothing otherwise), then the second part |
| PosixPath.BasenameOfJoin | faceblur.py:68 | joining a plain name onto any directory and taking the basename gives the name back |
| PhotoFiles.Eligible | faceblur.py:65-66 | the extension test `splitext(f)[1] == '.jpg'`; EligibleIff characterises it |
| PhotoFiles.EligibleHasSuffix | faceblur.py:65-66 | an eligible name ends in ".jpg" with a non-dot character before it in its final component |
| PhotoFiles.SuffixIsEligible | faceblur.py:65-66 | every such name is eligible |
| PhotoFiles.EligibleIff | faceblur.py:65-66 | both directions: eligible exactly when the name ends in ".jpg" with a non-dot character before it in its final component |
| PhotoFiles.SkippedExamples | faceblur.py:65-66 | ".jpg", "..jpg", "photo.JPG" and "photo.jpeg" are skipped: the match is exact and case-sensitive |
| PhotoFiles.ProcessedExamples | faceblur.py:65-66 | "photo.jpg", ".hidden.jpg" and "a.b.jpg" are processed |
| PhotoFiles.BlurPhoto | faceblur.py:64-69 | a `face_blur` call is made exactly for the eligible files |
| PhotoFiles.DestinationKeepsName | faceblur.py:68 | the written file has the basename of the file read |
| PhotoFiles.TaskPaths | faceblur.py:67-68 | for a separator-free eligible name, and roots that are non-empty and do not end in a separator, the task reads `root/f` and writes `new_root_path/f` (Mirror.TaskOfFile covers the general case) |
| Regions.Rescale | faceblur.py:43-46 | with `zoom_in` 1 the box is unchanged |
| Regions.RescaleAll | faceblur.py:41-46 | one box per detected box, in order, each with every coordinate multiplied by `zoom_in` |
| Regions.RescaleByDefault | faceblur.py:41-46 | with the default `zoom_in=1` the boxes are used exactly as detected |
| Regions.RescaleScenario | faceblur.py:43-46 | (10, 50, 60, 5) with zoom 2 becomes (20, 100, 120, 10) |
| Regions.SliceIndex | faceblur.py:49 | a normalised slice bound lies within the axis |
| Regions.SliceSpan | faceblur.py:49 | the selected range is an in-bounds, possibly empty interval |
| Regions.SliceSpanSelects | faceblur.py:49 | a position is in the computed span exactly when it lies on the axis between the two bounds, a negative bound counting from the end |
| Regions.SliceEmptyIff | faceblur.py:49 | with non-negative bounds the slice is empty exactly when start >= stop or start is past the end |
| Regions.Crop | faceblur.py:49 | the cut-out region has the slice's height and width |
| Regions.CropAt | faceblur.py:49 | pixel (i, j) of the cut-out is pixel (top + i, left + j) of the photo |
| Regions.Blurred | faceblur.py:52 | the blurred region has the shape of the region |
| Regions.BlurredAt | faceblur.py:52 | each blurred pixel is the kernel's value at that position of the region |
| Regions.Paste | faceblur.py:55 | slice assignment keeps the photo's height and width |
| Regions.PasteAt | faceblur.py:55 | after the assignment a pixel holds the patch's value inside the slice and its old value outside |
| Regions.BlurBox | faceblur.py:48-55 | one box keeps the photo's height and width |
| Regions.BlurBoxPixel | faceblur.py:48-55 | one box: outside its region a pixel keeps its value, inside it becomes the kernel's value on the region as it was before the box |
| Regions.BlurAll | faceblur.py:41-55 | the loop keeps the photo rectangular with the same height and width |
| Regions.BlurAllSnoc | faceblur.py:41-55 | one more box in the list is one more region blur on the loop's result |
| Regions.BlurRescaledStep | faceblur.py:41-55 | the next detected box is rescaled and then blurred on what the earlier boxes left |
| Regions.EmptyBoxUnchanged | faceblur.py:49-55 | a box whose clamped slice is empty in either direction changes nothing |
| Regions.InvertedBoxUnchanged | faceblur.py:49-55 | a non-negative box with top >= bottom or left >= right changes nothing |
| Regions.BlurAllOutside | faceblur.py:40-55 | a pixel outside the region of every box keeps its value through the whole loop |
| Regions.BlurAllAppend | faceblur.py:41-55 | running the boxes of one list and then of another is running the concatenated list |
| Regions.BlurAllFirst | faceblur.py:41-55 | the first box acts on the original photo and the remaining boxes on its result |
| Regions.BlurAllLast | faceblur.py:41-55 | overlaps are re-blurred: inside the last box's region a pixel is the kernel applied to the region as the earlier boxes left it |
| FaceBlur.Pixels | faceblur.py:40 | the array's contents as a rectangular grid of the array's height and width |
| FaceBlur.CutOut | faceblur.py:49 | reading `photo[top:bottom, left:right]` yields the crop of the photo's contents and changes nothing |
| FaceBlur.WriteBack | faceblur.py:55 | assigning a patch to the slice makes the contents the paste of the patch into the old contents |
| FaceBlur.BlurRegion | faceblur.py:48-55 | one loop pass changes the photo exactly as BlurBox says |
| FaceBlur.BlurFaces | faceblur.py:41-55 | the loop leaves the photo equal to BlurAll of the old photo over the rescaled boxes in detection order |
| FaceBlur.FaceBlur | faceblur.py:16-62 | returns true exactly when a face was detected; with none the photo is unchanged, otherwise it is BlurAll of the rescaled boxes |
| Mirror.PathStringSnoc | faceblur.py:80 | appending a component to a path joins it onto the path's text |
| Mirror.CommonPrefixLength | faceblur.py:79 | the two paths agree up to the returned length and differ just after it |
| Mirror.RelPath | faceblur.py:79 | `os.path.relpath` on component paths; RelPathBelow states it for directories below the start |
| Mirror.Normalize | faceblur.py:80 | the lexical part of `os.path.realpath`; NormalizeCanonical states it leaves canonical paths alone |
| Mirror.NormalizeCanonical | faceblur.py:80 | normalisation leaves a path without "", "." or ".." components unchanged |
| Mirror.RelPathBelow | faceblur.py:79 | relative to the source root, a directory below it is the part below it, and the root itself is "." |
| Mirror.MirrorDir | faceblur.py:79-80 | `new_root_path` of a walked directory; MirrorDirBelow, MirrorDirOfSourceRoot and MirrorDirInjective characterise it |
| Mirror.MirrorDirBelow | faceblur.py:79-80 | the directory `src + sub` maps to `dest + sub`: strip the source prefix, then append to the destination |
| Mirror.MirrorDirOfSourceRoot | faceblur.py:79-80 | the source root maps to the destination root |
| Mirror.MirrorDirInjective | faceblur.py:79-80 | distinct walked directories get distinct mirrors |
| Mirror.MakeDirs | faceblur.py:81 | `os.makedirs(p, exist_ok=True)` on the set of existing directories; MakeDirsIff characterises it |
| Mirror.MakeDirsIff | faceblur.py:81 | after `makedirs(p)` exactly the earlier directories and the ancestors of `p` (including `p`) exist |
| Mirror.MakeDirsIdempotent | faceblur.py:81 | creating an existing directory again changes nothing and is no error |
| Mirror.MakeDirsCommute | faceblur.py:81 | the order of directory creation does not matter |
| Mirror.DirectoryTasks | faceblur.py:83 | the loop over one directory's files yields the `face_blur` calls of its eligible files in order |
| Mirror.BlurAllPhoto | faceblur.py:78-83 | the walk loop ends with the directory set and call list that CreatedDirs and PlannedTasks define |
| Mirror.CreatedDirsIff | faceblur.py:78-81 | a directory exists after the walk exactly when it existed before or lies on the way to some walked directory's mirror |
| Mirror.CreatedDirsIdempotent | faceblur.py:78-81 | running the walk's directory creation again over its own result changes nothing |
| Mirror.MirrorsExist | faceblur.py:78-81 | by the time a directory's files are processed, its mirror `dest + sub` exists |
| Mirror.FileTasksIff | faceblur.py:83 | a task is among one directory's calls exactly when `blur_photo` produces it for one of its files |
| Mirror.PlannedTasksIff | faceblur.py:78-83 | a task of the walk is a task of one of its directories, and back |
| Mirror.TaskOfFile | faceblur.py:64-83 | an eligible file `f` in `src/sub` is read from `src/sub/f` and written to `dest/sub/f` |
| Mirror.PlannedTasksMirrored | faceblur.py:64-83 | in the sequential pass, a call of the walk is exactly the mirrored task of some eligible file: read from its place below the source, written below the destination by the same path |
| Mirror.PhotosIff | faceblur.py:65-66 | a name is among a directory's photos exactly when it is one of its files and eligible |
| Mirror.FileTasksInOrder | faceblur.py:83 | a directory's calls are one per eligible file, in file order: the i-th call is `blur_photo` of the i-th eligible file |
| Mirror.EntryTasksMirrored | faceblur.py:64-83 | for a directory below the source root, its calls are the mirrored tasks of its eligible files, in file order |
| Mirror.PlannedTasksInOrder | faceblur.py:64-83 | in the sequential pass, the calls of the walk are, directory by directory in walk order and file by file in file order, exactly one mirrored task per eligible file |

## Left out

- Face detection (faceblur.py:30) is a foreign model: its result, the list of boxes in detection order, is a parameter of `FaceBlur.FaceBlur`.
- `cv2.resize` with the float factors `1/zoom_in` (faceblur.py:27) is left out with detection. When `zoom_in` is positive, its output only feeds detection.
- FaceBlur.FaceBlur: a `zoom_in` of 0 raises ZeroDivisionError at faceblur.py:27, and a negative one makes `cv2.resize` reject its factor. Either way `face_blur` ends before detection. The model places no bound on `zoom` and gives such a call a normal outcome, which the program never reaches. Both callers pass the default 1 (faceblur.py:69 and 91).
- FaceBlur.BlurFaces: for the same reason, its outcome for a `zoom` of 0 or less is not one the program produces.
- `cv2.GaussianBlur` (faceblur.py:52) is the kernel parameter.
- Regions.EmptyBoxUnchanged: the program passes an empty slice to `cv2.GaussianBlur` as it would any other (faceblur.py:49-52), and OpenCV may reject it with an exception. Treating the empty slice as a no-op is a choice of the model, not the program's behaviour.
- Regions.InvertedBoxUnchanged: the same holds for an inverted box, whose slice is empty. The program hands it to `cv2.GaussianBlur`, and the model's no-op is a modelling choice.
- Image decoding and encoding (faceblur.py:25, 36, 40, 58) are left out, and so are the differences between the two readers, `load_image_file` (faceblur.py:25) and `cv2.imread` (faceblur.py:40). They return RGB and BGR channel order respectively, and may treat EXIF orientation differently. If they do, the detected boxes may not be in the frame of the array they are applied to; the model assumes one frame. The array's contents when `FaceBlur.FaceBlur` returns are the image that is written.
- Coordinates are unbounded integers. A `zoom_in` that is not an integer, which would make numpy slicing fail, is not modelled.
- The joblib `Parallel` pass (faceblur.py:82) makes the same `blur_photo` calls as the sequential list at faceblur.py:83, concurrently and in no fixed order, and writes the same destinations. The model records the sequential pass only, so every photo is processed twice in the source but once in the model.
- The `cpu_count` fallback (faceblur.py:11-14) is host introspection and is left out.
- `os.walk` (faceblur.py:78) is I/O: the list of its `(root, files)` pairs is a parameter of `Mirror.BlurAllPhoto`, and the sub-directory lists are unused.
- `os.path.abspath` (faceblur.py:75-76) is not modelled: the two roots are given as absolute component paths.
- `realpath` (faceblur.py:80) is modelled lexically only. Symbolic links are not resolved.
- Mirror.MakeDirsIff: `os.makedirs` failing because a path component is an existing file, or for lack of permission, is not modelled. Directories are a set of paths.
- Mirror.BlurAllPhoto: the calls are returned as tasks rather than executed, and their `True`/`False` results are dropped, as in the source.
- Mirror.BlurAllPhoto: the source catches no exception. Any exception raised by a `face_blur` call ends `blur_all_photo` at once, whether it is raised directly at faceblur.py:83 or re-raised by `Parallel` at faceblur.py:82. Such an exception can come from `load_image_file` on an undecodable ".jpg" (faceblur.py:25), from an empty slice given to `cv2.GaussianBlur` (faceblur.py:52), or from `cv2.imread` returning nothing (faceblur.py:36, 40). After one, the directories later in the walk are not created and their files are not read. CreatedDirs, PlannedTasks and this method describe only a run in which no call raises.
- FaceBlur.FaceBlur: the exceptions above are not modelled either. The method describes a call in which the photo was read and every blur succeeded.
- Console output and the command line (faceblur.py:20-21, 33-35, 60, 77, 85-93) are left out. This includes the single-file mode at faceblur.py:90-91, which is one `face_blur` call.
