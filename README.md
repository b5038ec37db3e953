# Cloud-cover training table: a Dafny model

`generate_dataset_script.py` builds a training table for cloud prediction.
It lines up the rows of a meteoblue weather CSV with sky-camera images taken
at the same minute. Each kept row gains three cloud-cover cells, for the
images at t, t+5 min and t+10 min.

This project models, and proves properties of, the script's own logic:

- the timestamp parser `_parse_meteoblue_datetime` and its pre-filter
  `represents_int` (module `Timestamp`);
- the image-name formatter `_sky_image_filename` (module `SkyImage`);
- the calendar arithmetic it relies on: `date + timedelta(days=1)`,
  `datetime + timedelta(minutes=m)` and date comparison (module `Calendar`);
- the inclusive date-range loop of `main` (module `DateRange`);
- the row loop of `main` with its `covers` loop and `fmt` (module `RecordMerger`);
- the download decision of `_ensure_images_downloaded` (module `Acquisition`);
- `main` as a whole (module `Dataset`).

Modules `Wrappers` (the `Option` type) and `Digits` (zero-padded decimal
fields and reading them back) are helpers.

How the model reads the source:

- Rows are `seq<string>` in and out. The CSV reader and writer are not modelled.
- The cloud cover of an image is an oracle `cover: string -> Option<C>`,
  keyed by image file name. It is `None` when the file is missing or the
  image pipeline fails, as `_cloud_cover_from_file` returns.
- The six-decimal rendering `f"{x:.6f}"` is a parameter `fmtCell: C -> string`.
  Where it matters, `fmtCell` is required never to return the empty string.
- The downloader is represented by the names it would add (`fetched`).
  Each call made to it is recorded, with its two ISO date arguments, in
  `ImageDirectory.downloads`.
- Time is naive local time at minute resolution. Python's strict
  `strptime` is modelled on exactly the 13 characters it is given. For
  `%Y%m%dT%H%M`, the only way Python's pattern can consume all 13
  characters is two characters per field after the year. The day may also
  be a blank followed by a digit from 1 to 9. Matching ignores case, so `t` is accepted
  as the separator.
- The date part must be accepted by `int()` (`represents_int`). That check
  is proved to matter only in one case: it turns away a blank-padded day
  such as `201905 5T0900`, which strptime alone accepts
  (`Timestamp.PrefilterRejectsBlankDay`). Everything else `int()` tolerates
  (a sign, blanks, underscores) strptime rejects anyway
  (`Timestamp.PrefilterEffect`).

## Model

| member | source | states |
|---|---|---|
| `Timestamp.Parse` | generate_dataset_script.py:15-30 | Returns None, never an exception, for any cell shorter than 13 characters and for any cell whose first eight characters `int()` rejects. Every value it returns is a datetime Python can hold. |
| `Timestamp.Strptime13` | generate_dataset_script.py:27-30 | The strict parse of the 13-character prefix yields only valid datetimes (month 1-12, an existing day, hour 0-23, minute 0-59, year 1-9999). |
| `Timestamp.RepresentsIntChars` | generate_dataset_script.py:135-140 | Whatever `represents_int` (`RepresentsInt`) accepts holds at least one digit, and only digits, blanks, signs and underscores. |
| `Timestamp.DigitsRepresentInt` | generate_dataset_script.py:135-140 | Any non-empty run of ASCII digits is accepted by `represents_int`. |
| `Timestamp.SpacePaddedDayIsNotInt` | generate_dataset_script.py:135-140 | Six digits, a blank and a digit are not an int to Python. |
| `Timestamp.PrefilterEffect` | generate_dataset_script.py:21-30 | For a cell of 13 characters or more, parsing is the strict parse of the prefix when the first eight characters are all digits, and None otherwise. |
| `Timestamp.ParseDigitCell` | generate_dataset_script.py:23-30 | A cell of eight digits, a separator and four digits parses exactly when its fields form a valid date and time, and then to those fields. So month 13, 30 February in a non-leap year, hour 24, minute 60 and year 0000 all give None. |
| `Timestamp.ParseSound` | generate_dataset_script.py:15-30 | Whatever parses starts with the canonical `YYYYMMDDTHHMM` cell of its value, except that the separator may be `t`. |
| `Timestamp.ParseComplete` | generate_dataset_script.py:27-28 | A canonical cell, with either separator case and any trailing characters, parses to its own datetime. |
| `Timestamp.ParseCharacterization` | generate_dataset_script.py:15-30 | `Parse(s) == Some(dt)` holds if and only if `dt` is a datetime and `s` is its canonical cell, up to the separator's case, followed by anything. |
| `Timestamp.ParseFormat` | generate_dataset_script.py:27-28 | Round trip: formatting a datetime as `YYYYMMDDTHHMM`, appending any suffix and parsing gives the same datetime back. |
| `Timestamp.PrefilterRejectsBlankDay` | generate_dataset_script.py:23-28 | `201905 5T0900` is accepted by strptime alone as 2019-05-05 09:00, but the parser returns None for it. |
| `SkyImage.Filename` | generate_dataset_script.py:33-39 | The image name always has 22 characters and ends with `-0.jpg`. |
| `SkyImage.FilenameFields` | generate_dataset_script.py:39 | The name is the zero-padded year, month, day, hour and minute, in that order, joined by hyphens. Each field reads back as the value it came from. |
| `SkyImage.FilenameInjective` | generate_dataset_script.py:39 | Two different capture minutes never get the same image name. |
| `Calendar.NextDay` | generate_dataset_script.py:81-84 | The next day is a valid date strictly after the given one. |
| `Calendar.NextDayOrdinal` | generate_dataset_script.py:84 | The next day is exactly one day later: its `toordinal()` is one more. |
| `Calendar.OrdinalOrder` | generate_dataset_script.py:82 | Python's date comparison agrees with ordinal comparison, in both directions, for `<`, `==` and `<=`. |
| `Calendar.AddDaysOrdinal` | generate_dataset_script.py:84 | Adding n days moves the ordinal by exactly n. |
| `Calendar.AddMinutes` | generate_dataset_script.py:124-125 | `dt + timedelta(minutes=m)` is a valid date and time, on the same day as `dt` or a later one. |
| `Calendar.AddMinutesStamp` | generate_dataset_script.py:124-125 | `dt + timedelta(minutes=m)` is a valid date and time exactly m minutes later, with carries into hour, day, month and year. |
| `Calendar.StampInjective` | generate_dataset_script.py:125 | Two valid date-times have the same minute count if and only if they are equal. |
| `Calendar.AddMinutesUnique` | generate_dataset_script.py:124-125 | A valid date-time is m minutes after `dt` if and only if it is the result of adding m minutes. |
| `Calendar.NoCarry` | generate_dataset_script.py:124-125 | When the minutes stay below 60, adding them changes only the minute field. |
| `DateRange.ExpandDates` | generate_dataset_script.py:79-84 | The loop terminates. It returns the inclusive range, which is empty exactly when start is after end. When non-empty, its first element is start and its last is end. |
| `DateRange.DateSpanShape` | generate_dataset_script.py:79-84 | The range has length (end - start) + 1, or 0 if that is negative. Element i is i days after start, each element is the day after the one before, and the elements strictly increase. |
| `DateRange.DateSpanMembership` | generate_dataset_script.py:79-84 | A date is in the range if and only if it is a valid date with start <= date <= end. |
| `RecordMerger.HourMinute` | generate_dataset_script.py:118 | `strftime("%H%M")` is four digits: the first two read back as the hour, the last two as the minute. |
| `RecordMerger.ObservationTimeIff` | generate_dataset_script.py:87 | The allow-set of `%H%M` strings holds exactly the whole hours from 09:00 to 15:00. |
| `RecordMerger.CoverFile` | generate_dataset_script.py:124-126 | At an observation time the offsets never carry. The three images are those of the row's own date and hour at minutes 00, 05 and 10. |
| `RecordMerger.ComputeCovers` | generate_dataset_script.py:123-127 | The `covers` loop returns three values, for t, t+5m and t+10m in that order. Each is the oracle's value for that minute's image name. |
| `RecordMerger.MergeRow` | generate_dataset_script.py:102-132 | A written row is the input row followed by exactly three more cells. |
| `RecordMerger.RowClassification` | generate_dataset_script.py:103-132 | An empty row is dropped. A metadata row gets exactly the three labels. Any other row is written if and only if its first cell parses to a listed date at an observation time. Its cells are then those of the minute-00, -05 and -10 images, in order. |
| `RecordMerger.FormatCover` | generate_dataset_script.py:129-130 | `fmt`: an absent value becomes the empty cell, and a present one becomes its six-decimal rendering. |
| `RecordMerger.BlankIffAbsent` | generate_dataset_script.py:129-130 | A cover cell is empty exactly when the image gave no value. A value is never written as a blank. |
| `RecordMerger.MergedSelection` | generate_dataset_script.py:102-132 | The output is an order-preserving selection of the input rows. It holds exactly the rows the loop body keeps, each transformed by it. |
| `RecordMerger.MergeRows` | generate_dataset_script.py:100-132 | The row loop writes exactly the rows of the specification `Merged`, in input order. |
| `Acquisition.IsJpgName` | generate_dataset_script.py:60 | A name that counts as an image has at least four characters, and the fourth from the end is a dot. |
| `Acquisition.HasAnyJpg` | generate_dataset_script.py:59-60 | An empty listing holds no image. A listing that holds one has a name with a dot fourth from its end. |
| `Acquisition.IsJpgNameIff` | generate_dataset_script.py:60 | A name counts as an image exactly when it ends with `.` followed by j, p and g, each in either case. |
| `Acquisition.JpgNameExamples` | generate_dataset_script.py:60 | `X.JPG` and an image name count as images; `x.jpeg` and `jpg` do not. |
| `Acquisition.JpgStaysPresent` | generate_dataset_script.py:60-65 | If the directory or the downloader's output holds a `.jpg`, the directory afterwards holds one. |
| `Acquisition.IsoFormat` | generate_dataset_script.py:67-68 | `date.isoformat()` is ten characters with hyphens at positions 4 and 7. |
| `Acquisition.IsoFormatFields` | generate_dataset_script.py:67-68 | The `YYYY-MM-DD` string is digits between the hyphens. The digits read back as the date's year, month and day. |
| `Acquisition.IsoFormatInjective` | generate_dataset_script.py:67-68 | Two dates give the same ISO string if and only if they are equal. |
| `Acquisition.ImageDirectory.EnsureImagesDownloaded` | generate_dataset_script.py:54-68 | Afterwards the directory exists. The downloader is called once, with the ISO start and end dates, exactly when no listed name ends in `.jpg` in any case. Otherwise nothing changes. |
| `Acquisition.EnsureTwice` | generate_dataset_script.py:58-68 | Suppose the first call finds or fetches a `.jpg`. Then calling twice has the effect of calling once, and the second call makes no download. |
| `Dataset.GenerateDataset` | generate_dataset_script.py:71-132 | `main` writes exactly the merged rows for the expanded date range. It calls the downloader at most once, and only if no image was present. The directory then lists its old names, plus the fetched ones exactly when a download was made. |
| `Dataset.OutOfRangeDropped` | generate_dataset_script.py:115-116 | A data row dated before start or after end is never written, not even with blank cells. |
| `Dataset.WrittenRow` | generate_dataset_script.py:102-132 | Every written row has at least four cells. A metadata row ends with the three labels. Any other row's first cell parses to a date in [start, end] at a whole hour from 09:00 to 15:00, and its last three cells come from the images at minutes 00, 05 and 10 of that hour. |
| `Dataset.HeaderScenario` | generate_dataset_script.py:107-109 | `variable,x` is written as `variable,x,cloud_cover_t,cloud_cover_t+5m,cloud_cover_t+10m`. |
| `Dataset.KeptDataRow` | generate_dataset_script.py:122-132 | A kept data row is written as itself followed by the formatted cover of its hour's minute-00, -05 and -10 images. |
| `Dataset.OneDayScenario` | generate_dataset_script.py:111-132 | Over 2019-05-23, the row `20190523T0900,x` gets the cells of `2019-05-23-09-00-0.jpg`, `...-09-05-...` and `...-09-10-...`. Each cell is blank where that image gives no value. |

## Left out

- CSV reading and writing, `open`, `os.makedirs`, `os.listdir`, `os.path.join` and `os.path.exists`: I/O. Rows are sequences of strings. The directory listing is a field. An image's path is keyed by its file name in the image directory.
- The `FileNotFoundError` branch of `_ensure_images_downloaded`: the directory was just created, so the listing is the directory's names, or empty if it did not exist.
- The image pipeline `load_and_trim`, `process_image_rb_ratio` and `calculate_cloud_cover`, and the catch-all in `_cloud_cover_from_file`: floating-point image processing in a module not shown. These are the `cover` oracle.
- `f"{x:.6f}"`: float formatting, the `fmtCell` parameter.
- `download_sky_camera_images`: a network download. Its effect is the `fetched` names and a recorded call.
- The string slicing of the hard-coded `start_date` and `end_date` in `main`: constants. The start and end dates are parameters.
- Non-ASCII input: Python's `int()` and the `\d` of strptime also accept other Unicode decimal digits and blanks, and `str.lower()` maps non-ASCII letters. The model treats every non-ASCII character as a non-digit and leaves it unchanged when lowering.
- `Calendar.NextDay`, `Calendar.AddMinutes`: years are unbounded. Python raises `OverflowError` past 9999-12-31. The date loop would hit this only for an end date of 9999-12-31. The minute offsets never reach it, since at observation times they never carry.
- `SkyImage.Filename`: years are always padded to four digits. The C library's `strftime("%Y")` behind Python may print years below 1000 without padding.
