# k-means clustering of Clustering.py, modelled in Dafny

`Clustering.py` clusters points read from a text file. The model covers three parts of it.

`knn` is Lloyd's k-means. It works in four steps:
- It places k initial centroids at random inside the bounding box of the points, unless the caller supplies positions.
- It assigns every point to its nearest centroid. On a tie, the lowest index wins.
- It moves every centroid of a non-empty class to the class mean.
- It repeats the assignment and the move until a pass leaves all centroids exactly where they were.

`read_vectors` turns the lines of a stream into vectors. It strips each line, splits it on a separator and drops empty fields. It converts the remaining fields and skips lines without fields, unless empty lines are asked for.

`natural_number` checks the cluster-count argument.

The project has four modules:
- `Wrappers` holds `Option` and `Result`.
- `Vectors` holds the numpy arithmetic `knn` uses. Coordinates are exact reals, and squared distance stands in for the Euclidean norm.
- `Clustering` holds `knn`. The assignment is `Nearest`, `Members` and `Classes`, and the method `AssignClasses`. The update is `NewCentroid` and `Step`, and the method `UpdateCentroids`, which overwrites an array in place. The initialisation is `InitialPositions`. The loop is the methods `Knn`, `Iterate` and `Pass`, and the function `Run` states what the loop returns.
- `Input` holds `read_vectors` and `natural_number`. It has `Strip`, `Split`, `Fields`, `Convert`, the loop method `ReadVectors` and its specification `ReadAll`, and `NaturalNumber`.

The methods are proved against the functions. `AssignClasses` builds exactly `Classes`, `UpdateCentroids` leaves `Updated` in the array, `Pass` performs `Step`, `Iterate` returns `Run`, and `ReadVectors` returns `ReadAll`. The lemmas then state what the source promises about those functions.

`main` builds the points with `np.matrix`, so each point `knn` iterates over is a 1×D row. For such rows `np.concatenate(points)` stacks the class and `.mean(axis = 0)` is the per-dimension mean, which is what `Mean` computes.

## Model

| member | source | states |
|---|---|---|
| `Vectors.SqDist` | Clustering.py:74 | The squared distance is non-negative, and it is zero from a point to itself. |
| `Vectors.ColumnMin` | Clustering.py:58 | The column minimum is at most every entry of the column and is one of them. |
| `Vectors.ColumnMax` | Clustering.py:59 | The column maximum is at least every entry of the column and is one of them. |
| `Vectors.Mean` | Clustering.py:89 | The mean has the dimensionality of the points. |
| `Vectors.MeanOfOne` | Clustering.py:84-89 | The mean of one point is that point. So the one-point branch gives the same centroid as the mean branch would. |
| `Vectors.MeanInBox` | Clustering.py:89 | In each dimension, the mean of a class lies between the class's column minimum and maximum. |
| `Vectors.ColumnSumBounds` | Clustering.py:89 | If every entry lies in [lo, hi], the column sum over n rows lies in [n·lo, n·hi]. |
| `Clustering.Nearest` | Clustering.py:74-76 | The chosen index is the index of one of the centroids. |
| `Clustering.NearestIsArgmin` | Clustering.py:74-76 | The chosen centroid is at least as close as every centroid, and strictly closer than every centroid before it. This is argmin with a first-minimum tie-break. |
| `Clustering.NearestIsFirstMinimum` | Clustering.py:76 | Any index that is a minimum with only farther centroids before it is the index chosen, so the choice is determined. |
| `Clustering.Members` | Clustering.py:71-77 | A class holds at most as many points as there are, all of the points' dimensionality. A class index at or past the number of centroids gets no points. |
| `Clustering.Classes` | Clustering.py:69-77 | The assignment produces k classes. |
| `Clustering.MembersSound` | Clustering.py:72-77 | A class holds only input points, and each of its points has that class's centroid as its nearest. |
| `Clustering.ClassesAppend` | Clustering.py:77 | Classifying one more point appends it to the class of its nearest centroid and leaves every other class unchanged. |
| `Clustering.ClassesShape` | Clustering.py:69 | There are k classes. Class i is Members(i), and a class index at or past the number of centroids stays empty. |
| `Clustering.AssignClasses` | Clustering.py:69-77 | The loop builds exactly the k classes of the assignment. |
| `Clustering.ClassesPartition` | Clustering.py:69-77 | Pooled together, the classes are the point multiset, so the class sizes sum to the number of points. |
| `Clustering.ClassOfEachPoint` | Clustering.py:72-77 | Each point lies in the class of its nearest centroid and in no other class. |
| `Clustering.AtLeastKMinusNEmpty` | Clustering.py:69-77 | With k classes and n points, at least k − n classes are empty. |
| `Clustering.AtLeastKMinusDistinctEmpty` | Clustering.py:69-77 | With k classes and d distinct points, at least k − d classes are empty, because copies of a point all go to the same class. |
| `Clustering.NewCentroid` | Clustering.py:80-89 | A new centroid has the dimensionality of the old one. |
| `Clustering.NewCentroidIsMean` | Clustering.py:80-89 | An empty class keeps the previous centroid exactly. A class of one or more points gives its mean. |
| `Clustering.Updated` | Clustering.py:80-89 | The update gives one centroid per old centroid. |
| `Clustering.Step` | Clustering.py:65-89 | A pass keeps the number of centroids and their dimensionality. |
| `Clustering.StepRule` | Clustering.py:80-89 | After a pass, the centroid of an empty class is unchanged and every other centroid is its class mean. |
| `Clustering.StepInClassBox` | Clustering.py:84-89 | A recomputed centroid lies inside its class's bounding box. |
| `Clustering.UpdateCentroids` | Clustering.py:80-89 | Updating in place leaves in the array the centroids the update rule gives. |
| `Clustering.InitialPositions` | Clustering.py:54-63 | Without supplied positions there are k initial centroids of dimensionality D. |
| `Clustering.BoxPoint` | Clustering.py:60-63 | No contract of its own: the coordinate `min + f·(max − min)` of `minvec + rand * spread`. `BoxPointInRange` states its range. |
| `Clustering.BoxPointInRange` | Clustering.py:60-63 | `min + f·(max − min)` with f in [0, 1) lies in [min, max], and below max when min < max. |
| `Clustering.InitialInBox` | Clustering.py:54-63 | Every initial coordinate d lies in [min_d, max_d], and strictly below max_d when the column is not constant. |
| `Clustering.Start` | Clustering.py:54-63 | The loop starts from the supplied positions or from k random ones, matching the points' dimensionality. |
| `Clustering.Run` | Clustering.py:65-95 | No contract of its own: the `while True` loop as a function, bounded by `fuel` passes. `RunUnfold`, `RunShape`, `RunIsSteps`, `RunKeepsEmpty` and `RestartConverged` state its properties. |
| `Clustering.RunUnfold` | Clustering.py:65-95 | With a pass left, the loop returns the positions if a pass does not move them, and otherwise continues from the moved positions with one pass fewer. |
| `Clustering.RunShape` | Clustering.py:65-95 | The loop returns as many centroids as it started with, of the points' dimensionality. A `Converged` result is a fixed point of the pass. |
| `Clustering.Steps` | Clustering.py:65-89 | Any number of passes keeps the number of centroids and their dimensionality. |
| `Clustering.Passes` | Clustering.py:65-95 | The loop makes at most `fuel` passes. |
| `Clustering.RunIsSteps` | Clustering.py:65-95 | The loop returns the positions after the passes it made. When it runs out, it made all `fuel` passes, and a converged loop made at least one. |
| `Clustering.StepsKeepEmpty` | Clustering.py:80-83 | A centroid whose class is empty in each of n passes is where it started after them. |
| `Clustering.RunKeepsEmpty` | Clustering.py:65-95 | A centroid that no point picks in any pass the loop makes is returned exactly where it started. |
| `Clustering.RestartConverged` | Clustering.py:65-95 | Restarting the loop from what it converged to returns the same result after one pass. |
| `Clustering.Knn` | Clustering.py:47-95 | See the Knn bullets below the table. |
| `Clustering.Iterate` | Clustering.py:65-95 | The loop method returns exactly `Run` from its start. |
| `Clustering.Pass` | Clustering.py:66-89 | One body of the loop (assign, then update in place) changes the positions into Step of the old positions. |
| `Clustering.StepFromClasses` | Clustering.py:69-89 | Updating from the k classes of a pass is the same as Step. |
| `Clustering.SinglePointIsFixed` | Clustering.py:50-95 | For the single point (5, 5) and k = 1, the initial centroid is (5, 5) whatever the random factors, and a pass leaves it there. |
| `Clustering.OnePointIsFixed` | Clustering.py:69-89 | A pass over one point, with that point as the only centroid, leaves the centroid where it is. |
| `Clustering.SinglePointConverges` | Clustering.py:47-95 | For the single point (5, 5), k = 1, random initial positions and at least one pass, the loop converges on (5, 5). |
| `Input.IsSpace` | Clustering.py:106 | No contract of its own: the characters Python's `str.isspace` accepts, which `strip()` removes. `TrimStartSpec`, `TrimEndSpec` and `StripSpec` state what stripping does with them. |
| `Input.TrimStart` | Clustering.py:106 | Stripping the front never lengthens the text. |
| `Input.TrimStartSpec` | Clustering.py:106 | Stripping the front keeps the suffix that starts at the first non-space character. Everything it drops is whitespace. |
| `Input.TrimEnd` | Clustering.py:106 | Stripping the end never lengthens the text. |
| `Input.TrimEndSpec` | Clustering.py:106 | Stripping the end keeps the prefix that ends at the last non-space character. Everything it drops is whitespace. |
| `Input.Strip` | Clustering.py:106 | Stripping never lengthens the line. |
| `Input.StripSpec` | Clustering.py:106 | A stripped line neither starts nor ends with whitespace. It is empty exactly when the line is all whitespace. |
| `Input.Split` | Clustering.py:106 | `split(sep)` gives at least one field and at most one more than the text has characters. |
| `Input.SplitFirstIsPrefix` | Clustering.py:106 | The first field is a prefix of the text. |
| `Input.SplitJoin` | Clustering.py:106 | Joining the fields of `split(sep)` with sep gives back the text. |
| `Input.SplitFirstIsLeftmost` | Clustering.py:106 | The first cut is at the leftmost occurrence of sep: none starts inside the first field, and one starts right after it when there is a second field. |
| `Input.SplitRest` | Clustering.py:106 | After the first cut, the other fields are the split of the text after the first separator. With SplitFirstIsLeftmost this fixes every field, overlapping separators included. |
| `Input.SplitFieldsFree` | Clustering.py:106 | No field of `split(sep)` contains sep. |
| `Input.NonEmpty` | Clustering.py:105-107 | The `if entry` filter keeps at most as many fields as there are. |
| `Input.NonEmptyKeeps` | Clustering.py:105-107 | A value is kept exactly when it is a non-empty field. |
| `Input.NonEmptyAppend` | Clustering.py:105-107 | The filter distributes over concatenation and keeps a single field exactly when it is non-empty. So it keeps every non-empty field, with repetitions, in order. |
| `Input.Fields` | Clustering.py:105-107 | A line has at most one more entry than it has characters. |
| `Input.FieldsAreEntries` | Clustering.py:105-107 | Every converted entry is non-empty and contains no separator. |
| `Input.BlankLineHasNoFields` | Clustering.py:105-111 | A whitespace-only line has no fields, whatever the separator. |
| `Input.FieldsIffNotBlank` | Clustering.py:105-111 | With a whitespace separator such as the default space, a line has fields exactly when it holds a non-space character. |
| `Input.Convert` | Clustering.py:105 | A conversion failure names a field of the line. |
| `Input.ConvertSpec` | Clustering.py:105 | See the ConvertSpec bullets below the table. |
| `Input.ConvertSucceedsIffAllParse` | Clustering.py:105 | The conversion succeeds exactly when every field parses. |
| `Input.ReadLine` | Clustering.py:105-114 | A line raises the empty-separator error exactly when the separator is empty. |
| `Input.ReadLineOutcome` | Clustering.py:105-114 | See the ReadLineOutcome bullets below the table. |
| `Input.ReadAll` | Clustering.py:104-114 | The stream yields at most one vector per line. |
| `Input.ReadVectors` | Clustering.py:104-114 | The generator loop produces exactly ReadAll: one outcome per line, in order, stopping at the first exception. |
| `Input.ReadAllAdvance` | Clustering.py:104-114 | After a line, either its exception ends the stream, or its vector (if any) is yielded and reading continues. |
| `Input.FromLinesAt` | Clustering.py:105-114 | Vector j is the conversion of the fields of kept line j. |
| `Input.ReadAllVectors` | Clustering.py:104-114 | When nothing is raised, the vectors are, in order, the conversions of the lines that have fields (or of every line with `include_empty`). |
| `Input.VectorOfLine` | Clustering.py:104-114 | When nothing is raised, vector j has one entry per non-empty field of its line: the parsed value of that field. |
| `Input.IncludeEmptyKeepsEveryLine` | Clustering.py:109-114 | With `include_empty` and no exception, there is one vector per line. |
| `Input.SkipEmptyYieldsNoEmpty` | Clustering.py:109-111 | Without `include_empty`, no yielded vector is empty. |
| `Input.ReadAllEdges` | Clustering.py:104-106 | No lines give no vectors and no error. An empty separator raises on the first line. |
| `Input.NaturalNumber` | Clustering.py:117-123 | Success exactly for integers of at least 1, returned unchanged. An integer below 1 is rejected as not natural, and text that is not an integer is rejected too. |
| `Input.NaturalNumberAsWritten` | Clustering.py:119-122 | As written, an integer below 1 fails with an unknown-format-code error. |
| `Input.FormatCodeDiscrepancy` | Clustering.py:120-122 | Both versions accept the same inputs with the same values. For "0" they raise different errors. |

Details of the longer rows above:
- `Clustering.Knn`:
  - The result is `None` exactly when there are no points.
  - Otherwise there is one centroid per starting centroid, of the points' dimensionality. Without supplied positions there are k of them.
  - With points, the result is `Run` from `Start`: the loop run from the initial positions.
  - A `Converged` result is a fixed point of a pass.
  - With no fuel, the starting positions come back as `OutOfFuel`.
  - Supplied positions that are already a fixed point come back as `Converged` after one pass.
- `Input.ConvertSpec`:
  - On success, entry i is the parsed value of field i.
  - On failure, the failing field is the first one the parser rejects.
- `Input.ReadLineOutcome`:
  - An empty separator raises.
  - A rejected field raises with that field.
  - A line is skipped exactly when it has no fields and empty lines are not wanted.
  - Otherwise the line yields its converted fields, and the vector is non-empty unless empty lines are wanted.

## Left out

- Floating point is not modelled. Coordinates are exact reals, so rounding in the mean and in the exact-equality test is absent, and squared distance stands in for the square root inside `np.linalg.norm`.
- `np.random.rand` is not modelled. The random factors are an input, `rand`, and `UnitFactors` states the [0, 1) range that `InitialInBox` relies on.
- `Clustering.Knn`: runs at most `fuel` passes and then returns `OutOfFuel` with the current centroids. It does not model the unbounded `while True` loop, because Lloyd's iteration is not proved to terminate.
- `Clustering.Knn`: the model copies the caller's positions into a fresh array. The source updates a caller-supplied array in place, so that aliasing is not modelled.
- Supplied positions are `Some(positions)` in the model. It matches the source only where `positions == None` evaluates to `False`: a numpy version that does not compare with `None` element by element, or a one-element array. Under current numpy a multi-element array makes that `if` raise. A plain list of rows is not modelled either. The update would store 1×D matrix rows into it. The comparison at Clustering.py:94 would then broadcast the k×1×D list against the k×D copy, so it misses a fixed point with two distinct centroids, and a list that mixes both row shapes makes numpy raise.
- Exceptions `knn` raises are preconditions (`KnnArguments`) instead of modelled results:
  - points of uneven dimensionality;
  - k = 0 with points present (`argmin` of an empty array);
  - an empty supplied positions array (`argmin` of an empty array);
  - supplied positions of a dimensionality other than the points'. The source raises a broadcast error there, except for 1-D points with wider positions, where it runs;
  - more supplied positions than classes. The source raises an index error only when some point's nearest centroid has an index of k or more. When none has, it runs and leaves the extra centroids untouched; the precondition `|c| <= k` excludes that run too.
- A supplied positions array of integer dtype is not modelled. The source would truncate the means written into it.
- `main`, the plotting and the argument-parser setup (Clustering.py:9-45, 125-136) are not modelled, because they are presentation and I/O.
- `Input.ReadVectors`: the stream is modelled as the sequence of its lines. `vector_type` is modelled as a parameter that parses a field or rejects it. `np.array(fields)` is modelled as the sequence of parsed values. The laziness of the generator is not modelled; the result is what it yields up to the first exception.
- `Input.Split`: only an explicit separator is modelled. `sep=None`, which splits on runs of whitespace, is not modelled.
- `Input.NaturalNumber`: `int()` is modelled as a parameter, because its accepted syntax (signs, underscores, surrounding whitespace) belongs to Python.

## Findings

| source | as written | input that shows it | evidently intended | confidence | as-written member | corrected member |
|---|---|---|---|---|---|---|
| Clustering.py:121-122 | The message is built with `"{:r}".format(n)`. `r` is not a format code for integers, so formatting raises `ValueError` before `ArgumentTypeError` is raised. | `natural_number("0")` | `"{!r}"`, which raises `ArgumentTypeError("0 is not a natural number")` | not executed | `Input.NaturalNumberAsWritten` | `Input.NaturalNumber` |
