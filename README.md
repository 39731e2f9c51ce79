# Verified model of the ShineOn virtual try-on utilities

This project models, in Dafny, the small self-contained helpers of the
ShineOn virtual try-on training code:

- `get_prev_data_zero_bounded`: the temporal window of `num_frames` frames
  ending just before `end_idx`, left-padded with copies of the first frame
  (module `Util`, `util.dfy`);
- `without_key`: in-place removal of keys from a dict that is then returned
  (module `Util`, class `Util.Dict`);
- the name search of `find_class_in_module`: the target class name loses
  its underscores and is lower-cased, each namespace name is lower-cased,
  and the last match wins (module `Util`);
- `parse_num_channels`: the total channel count of named inputs, looked
  up as `TryonDataset.<NAME>_CHANNELS` (module `BaseModel`, `base_model.dfy`).

`wrappers.dfy` holds the `Option` and `Result` types that stand for
Python's `None` and for raised exceptions. `py_str.dfy` holds `str.lower` and
`str.upper`.

Python semantics modelled explicitly:
- list slicing clamps out-of-range and negative bounds (`Util.PySlice`);
- `d.pop(k)` raises `KeyError` and leaves `d` unchanged when `k` is absent (`Util.Dict.Pop`);
- `data[0]` on an empty list raises `IndexError` (`Util.WindowError`);
- `getattr` on a missing attribute raises `AttributeError` (`BaseModel.ChannelError`).
- If the last matching namespace entry is bound to `None`, `cls` ends as
  `None` and the lookup reports failure.

A negative `num_frames` raises nothing: with `0 <= end_idx <= len(data)`
the slice `data[start_idx:end_idx]` is empty and the result is `[]`
(`Util.WindowOfNegativeFrames`).

## Model

| member | source | states |
|---|---|---|
| `Util.GetPrevDataZeroBounded` | util/__init__.py:42-48 | Over all integer arguments, the window fails (IndexError) exactly when padding is needed and `data` is empty; for `0 <= end_idx <= len(data)` and `num_frames >= 0` it otherwise succeeds with exactly `num_frames` frames |
| `Util.Repeat` | util/__init__.py:46 | `[x for _ in range(n)]` has `max(0, n)` elements, all equal to `x` |
| `Util.WindowIsClampedFrames` | util/__init__.py:42-48 | For `0 <= end_idx <= len(data)`, `num_frames >= 0` and non-empty `data` whenever padding is needed: the window succeeds, has exactly `num_frames` frames, and frame `i` is `data[max(0, end_idx - num_frames + i)]` |
| `Util.WindowWithoutPadding` | util/__init__.py:43-45 | When `end_idx - num_frames >= 0`, the window is exactly `data[end_idx-num_frames:end_idx]` and nothing is prepended |
| `Util.WindowWithPadding` | util/__init__.py:43-47 | When `start_idx < 0`, the first `-start_idx` frames all equal `data[0]` and the remainder equals `data[0:end_idx]` |
| `Util.WindowOfZeroFrames` | util/__init__.py:43-45 | `num_frames == 0` with any `end_idx >= 0` gives the empty window |
| `Util.WindowEndsAtEndIdx` | util/__init__.py:44-47 | With `end_idx > 0` and `num_frames > 0`, the last frame is `data[end_idx-1]` and every frame occurs in `data` |
| `Util.WindowOfNegativeFrames` | util/__init__.py:43-44 | A negative `num_frames` with `0 <= end_idx <= len(data)` gives `[]`, not an error |
| `Util.WindowExamples` | util/__init__.py:42-48 | `[5,6,7,8],4,2 -> [7,8]`; `[5,6,7,8],2,5 -> [5,5,5,5,6]`; `[9],1,3 -> [9,9,9]` |
| `Util.PySlice` | util/__init__.py:44 | An in-range slice `s[lo:hi]` is the subsequence from `lo` to `hi`; a slice with a non-negative end whose start is not before that end is empty |
| `Util.Dict.Pop` | util/__init__.py:38 | `d.pop(k)` returns the value and removes exactly `k` when present; otherwise it reports `KeyError(k)` and leaves `d` unchanged |
| `Util.WithoutKey` | util/__init__.py:30-39 | The dict is mutated in place to what popping the keys in order leaves. On success the same dict object is returned. On the first absent key, that key is reported |
| `Util.PopEachSucceedsIff` | util/__init__.py:37-38 | Removal succeeds exactly when every listed key is present and no key is listed twice |
| `Util.PopEachResult` | util/__init__.py:37-39 | On success the dict is the original minus the listed keys, other keys keep their values. On failure at position `j`, the keys before `j` were all present and distinct (so `j` is the first failing pop), they stay removed, the failing key is absent from what is left, and nothing else changed |
| `Util.RepeatedKeyFails` | util/__init__.py:37-38 | A key listed twice always makes the removal fail |
| `Util.FindClassInModule` | util/__init__.py:4-19 | The result is the object bound to the last namespace name whose lower-cased form equals the normalised target. Failure is reported when no name matches or that object is `None` |
| `Util.LookupLastIsLastMatch` | util/__init__.py:8-17 | The search finds nothing exactly when no name matches, and otherwise finds the object of the last matching entry |
| `Util.LookupLastAppend` | util/__init__.py:8-10 | A matching entry later in iteration order overrides every earlier match |
| `Util.RemoveUnderscores` | util/__init__.py:5 | `replace("_", "")` leaves no underscore and keeps every other character with its number of occurrences; their order is kept by `Util.RemoveUnderscoresAppend` |
| `Util.RemoveUnderscoresAppend` | util/__init__.py:5 | Underscore deletion works piecewise over concatenation, so the remaining characters keep their order |
| `Util.RemoveUnderscoresNoop` | util/__init__.py:5 | A name without underscores is left unchanged |
| `Util.NormalizeTarget` | util/__init__.py:5 | The search key is the target with its underscores deleted, then each character lower-cased: no `_`, no upper-case letter |
| `Util.RemoveUnderscoresUpper` | util/__init__.py:5 | Deleting underscores commutes with upper-casing |
| `Util.NormalizeTargetCaseInsensitive` | util/__init__.py:5 | The upper-cased target gives the same search key as the target, so letter case in the target does not matter |
| `Util.UnderscoreNameNeverMatches` | util/__init__.py:5-9 | A namespace name containing `_` never equals the normalised target |
| `Util.UnderscoreEntryIgnored` | util/__init__.py:5-10 | Inserting an entry whose name contains `_` anywhere in the namespace never changes the search result |
| `Util.NormalizeTargetIdempotent` | util/__init__.py:5 | Normalising an already normalised target changes nothing |
| `PyStr.Lower` | util/__init__.py:9 | `str.lower()` keeps the length and maps each character, ASCII upper-case letters to lower-case, everything else unchanged |
| `PyStr.Upper` | models/base_model.py:121 | `str.upper()` keeps the length and maps each character, ASCII lower-case letters to upper-case, everything else unchanged |
| `BaseModel.ChannelAttrSameIff` | models/base_model.py:121 | Two names share a registry attribute exactly when their upper-cased forms are equal |
| `BaseModel.ChannelAttr` | models/base_model.py:121 | The attribute looked up for an input is its upper-cased name followed by `_CHANNELS` |
| `BaseModel.SumChannels` | models/base_model.py:120-122 | The generator-expression sum succeeds exactly when every name's `<NAME>_CHANNELS` attribute is registered |
| `BaseModel.ParseNumChannels` | models/base_model.py:116-123 | A bare string succeeds exactly when its attribute is registered, a list exactly when every name's attribute is; an empty list gives 0 |
| `BaseModel.SingleIsOneElementList` | models/base_model.py:118-119 | A bare string gives the same result as the one-element list holding it: its registered count, or the missing attribute |
| `BaseModel.SumChannelsAppend` | models/base_model.py:120-122 | The count of a concatenation is the sum of the parts' counts. The first part's error takes precedence, then the second's |
| `BaseModel.SumChannelsFailsIff` | models/base_model.py:121 | The count fails exactly when some name has no `<NAME>_CHANNELS` entry. The error names the attribute of the first such name |
| `BaseModel.SumChannelsOrderIndependent` | models/base_model.py:120-122 | For any permutation of the names, success is the same and so is the total |
| `BaseModel.SumChannelsCaseInsensitive` | models/base_model.py:121 | Lists whose names upper-case alike, position by position, give the same result |
| `BaseModel.UpperCasedNameCountsAlike` | models/base_model.py:121 | Upper-casing an input name first does not change its count |
| `BaseModel.SumChannelsNonNegative` | models/base_model.py:120-122 | With non-negative registered counts, a successful total is non-negative |

## Left out

- `multiply` and `divide` (util/__init__.py:22-27): one-line arithmetic wrappers, and `divide` is floating-point true division.
- `importlib.import_module`, the `print` and `exit(0)` in `find_class_in_module`: reflection and process I/O. The module is given as its namespace, a sequence of name/object pairs in iteration order, and exiting is an error result.
- The `BaseModel` class (models/base_model.py:20-113) is not part of this model: dataset preparation, dataloaders, tensorboard logging, the optimizer and `_make_step_scheduler`, a floating-point learning-rate lambda.
- `modify_commandline_options` and options/test_options.py: argparse configuration.
- `get_and_cat_inputs`: a tensor concatenation.
- The `TryonDataset` class is not part of this model. Its `<NAME>_CHANNELS` constants are a registry parameter, from attribute name to integer value.
- `PyStr.Lower`, `PyStr.Upper`: map only the ASCII letters. Python's full Unicode case mapping (for example `'ß'.upper() == 'SS'`) is not modelled.
- `Util.GetPrevDataZeroBounded`: the window lemmas assume `0 <= end_idx <= len(data)`. Beyond that range the function follows Python's slice clamping, but no property is stated.
- `Util.WithoutKey`: keys and values are generic. Python's hashing and `__eq__` are Dafny equality on the key type.
