/** Data model of the log merger: the shapes of loaded log files, the statistics a
    merge produces, and the ways a merge can fail. */
module Types {

  /** A value that may be absent (a missing nested key, a failed lookup). */
  datatype Option<T> = None | Some(value: T)

  /** Every way a merge can stop without output; all of them are fatal. The
      Python code signals most with an `assert`, an `IndexError` or a
      `ValueError`. A failed path lookup is a `KeyError` or `TypeError`,
      averaging a non-number is numpy's `TypeError`, and the format 3
      placeholder ends in the `TypeError` of `sorted(None)`. `WrongShape`
      has no Python counterpart: the model rejects logs of the wrong shape
      for the chosen format. Python fails on scalar logs given to format 2,
      but formats 0 and 1 on logs of equal-width samples average every
      value of every pooled sample instead. */
  datatype MergeError =
    | FeaturesNotAllowed          // a feature list given to format 0, 1 or 2
    | NoInput                     // `data[0]` on an empty list of files
    | KeyMismatch(file: nat)      // format 0: this file's key set differs from file 0's
    | KeyCountMismatch(file: nat) // formats 1, 2: this file's key count differs from file 0's
    | NoSamples                   // format 2: no first sample to take the column count from
    | ColumnCountMismatch         // format 2: a sample of the wrong width
    | StepCountMismatch           // format 3: files with different step counts
    | PathNotFound                // format 3: a feature path that cannot be walked (KeyError, TypeError)
    | NotNumeric                  // format 3: a kept feature that is not a number (numpy's TypeError)
    | UnsupportedFormat(id: int)  // a format id outside 0..3
    | WrongShape                  // logs whose shape does not fit the selected format
    | Unimplemented               // the older format 3 placeholder (TypeError of `sorted(None)`)

  datatype Result<T> = Success(value: T) | Failure(error: MergeError)

  /** A numpy float64 as the merger produces it: finite, or NaN for the
      mean or deviation of an empty list. */
  datatype Float = Finite(x: real) | NaN

  /** Canonical key -> `[mean, std, mean, std, ...]`. */
  type Stats<K> = map<K, seq<Float>>

  /** The result of one merge: statistics and, for format 3 only, the column header. */
  datatype Merged<K> = Merged(stats: Stats<K>, header: Option<seq<string>>)

  /** A loosely typed record as a YAML or JSON loader produces it. */
  datatype Value =
    | Number(x: real)
    | Text(s: string)
    | Items(items: seq<Value>)
    | Record(fields: map<string, Value>)
}
