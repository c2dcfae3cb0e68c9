# esmini CommonMini and OpenDRIVE generator helpers in Dafny

This project models the shared utility layer of the esmini driving
simulator (`EnvironmentSimulator/Modules/CommonMini/CommonMini.cpp`) and
three pure helpers of its OpenDRIVE code generator
(`support/python/src/command/generate/opendrive.py`), and proves
properties of the model.

- **Angles** (`angles.dfy`). Angles in radians can be normalised into
  [0, 2π) or [-π, π]. There are signed and absolute differences, a
  normalised sum and the "facing forward" test. Two angles are the same
  direction when they differ by a whole number of turns (`SameAngle`).
- **Planar geometry** (`geometry.dfy`):
  - cross and dot products, squared and plain distances, vector lengths and
    normalisation;
  - projection onto a line, and the left/right side of a directed line;
  - signed and unsigned distance to a line, and distance to a segment (an
    "edge");
  - the "between the endpoints" test with its normalised position `sNorm`;
  - intersection of two lines;
  - the test for a point inside the sector between two lines.
- **Frames** (`frames.dfy`): 2D rotation, and conversion between global
  coordinates and the coordinates of a host at a position and heading.
- **Byte order** (`byte_order.dfy`): `SwapByteOrder` reverses the bytes of
  every fixed-size value in a buffer, in place.
- **Strings and paths** (`strings.dfy`, `paths.dfy`):
  - splitting at a separator, and ASCII lower-casing;
  - directory name, file name and extension of a path, and the
    directory-name test;
  - combining a directory with a file path.
- **Search paths** (`env.dfy`): `SE_Env::AddPath`, a duplicate-free list
  of search paths.
- **Command-line options** (`options.dfy`): the `SE_Options` registry,
  with `AddOption`, lookup, argument access and change, the argument
  parser `ParseArgs`, the original/unknown argument queries and `Reset`.
- **OpenDRIVE generator helpers** (`opendrive.dfy`):
  - `fix_non_legal_chars` cleans names;
  - `replace_xsd_types` maps XML-schema types to C++ types;
  - `union_to_struct` folds the members of XML-schema `union` types into
    struct dictionaries.

Modelling choices:
- **Numbers and maths.**
  - Doubles are `real`; rounding is not modelled.
  - `sin`, `cos` and `sqrt` are fields of a `MathLib` value passed in.
    Its ghost `Valid()` predicate states the identities the proofs use: sin² + cos² = 1, odd `sin`, even `cos`, `cos 0 = 1`, and `sqrt` being the non-negative square root. Contracts that depend on them are stated under `lib.Valid() ==>`.
- **Constants.** The constants of the common header are not part of this model and are left abstract, typed by what the proofs need:
  - `M_PI` is positive;
  - `SMALL_NUMBER` is positive and at most 10⁻³;
  - `SIGN(0)` is ±1;
  - `OPT_PREFIX` is a non-empty string.
- **C types.**
  - `fmod` truncates toward zero, as in C.
  - `size_t` wrap-around is written out where the code depends on it (`FileNameWithoutExtOf`).
  - The 32-bit `int` index of the option accessors is cast to `unsigned` as in the source.
- **Results and failure.**
  - Results returned through reference parameters become small datatypes (`Closest`, `Span`, `Intersection`).
  - A null pointer, `npos` or a Python exception becomes `Option.None` or -1.
- **Mutable state.** The registries are values: every operation that changes them returns the new value.
- **Python dictionaries.** A Python dictionary is a sequence of key/value pairs with distinct keys, in insertion order. The result of `union_to_struct` is a map from keys to entries.

The code is followed where it and its documentation disagree:
- `GetAngleInIntervalMinusPIPlusPI` keeps -π as -π, so its range is the closed interval [-π, π] (`Angles.MinusPIIsKept`).
- `Global2LocalCoordinates` turns by `+angle` like `RotateVec2D`. The round trip to `Local2GlobalCoordinates` therefore passes the negated heading, as the round trip requires.
- The constructors of `SE_Option` live in a header that is not part of this model. A new option is taken to be unset, with no collected arguments and (for the three-argument `AddOption`) an empty default.
- `SE_Vector::Cross` lives in a header that is not part of this model. It is taken to be `a.x*b.y - a.y*b.x`; the sign of `sNorm` in `IsPointWithinSectorBetweenTwoLines` depends on that convention.

## Model

| member | source | states |
|---|---|---|
| Angles.GetAngleInInterval2PI | EnvironmentSimulator/Modules/CommonMini/CommonMini.cpp:255-269 | the result lies in [0, 2π) and is the same direction as the input |
| Angles.GetAngleInInterval2PIUnique | EnvironmentSimulator/Modules/CommonMini/CommonMini.cpp:255-269 | it is the only value in [0, 2π) with that direction, so equal directions normalise equally |
| Angles.GetAngleInInterval2PIFixed | EnvironmentSimulator/Modules/CommonMini/CommonMini.cpp:255-269 | an angle already in [0, 2π) comes back unchanged |
| Angles.GetAngleInIntervalMinusPIPlusPI | EnvironmentSimulator/Modules/CommonMini/CommonMini.cpp:271-285 | the result lies in [-π, π] and is the same direction as the input |
| Angles.GetAngleInIntervalMinusPIPlusPIUnique | EnvironmentSimulator/Modules/CommonMini/CommonMini.cpp:271-285 | inside the open interval (-π, π) the result is the unique angle of that direction |
| Angles.MinusPIIsKept | EnvironmentSimulator/Modules/CommonMini/CommonMini.cpp:271-285 | -π is returned as -π, not as π |
| Angles.GetAngleDifference | EnvironmentSimulator/Modules/CommonMini/CommonMini.cpp:229-243 | the signed difference lies in [-π, π] and is the direction of `angle1 - angle2` |
| Angles.AngleDifferenceIsNormalisedDifference | EnvironmentSimulator/Modules/CommonMini/CommonMini.cpp:229-243 | the difference equals the raw difference normalised into [-π, π] |
| Angles.AngleDifferenceAntisymmetric | EnvironmentSimulator/Modules/CommonMini/CommonMini.cpp:229-243 | swapping the two angles negates the difference |
| Angles.GetAbsAngleDifference | EnvironmentSimulator/Modules/CommonMini/CommonMini.cpp:212-227 | the unsigned difference lies in [0, π] and is the direction of one of the two raw differences |
| Angles.AbsAngleDifferenceIsAbsOfDifference | EnvironmentSimulator/Modules/CommonMini/CommonMini.cpp:212-243 | the unsigned difference is the absolute value of the signed difference |
| Angles.AbsAngleDifferenceSymmetric | EnvironmentSimulator/Modules/CommonMini/CommonMini.cpp:212-227 | the unsigned difference does not depend on the order of the angles |
| Angles.GetAngleSum | EnvironmentSimulator/Modules/CommonMini/CommonMini.cpp:250-253 | the sum lies in [0, 2π) and is the direction of `angle1 + angle2` |
| Angles.AngleSumAssociative | EnvironmentSimulator/Modules/CommonMini/CommonMini.cpp:250-253 | summing three angles gives the same result in either grouping |
| Angles.ReverseHeadingFlipsForward | EnvironmentSimulator/Modules/CommonMini/CommonMini.cpp:245-253 | turning a heading in [0, 2π) by π flips the forward test, except exactly at ±π/2 |
| Geometry.CrossDotLagrange | EnvironmentSimulator/Modules/CommonMini/CommonMini.cpp:758-766 | cross² + dot² = \|u\|²·\|v\|²; the cross product is antisymmetric and the dot product symmetric |
| Geometry.PointSquareDistance2D | EnvironmentSimulator/Modules/CommonMini/CommonMini.cpp:430-433 | the squared distance is non-negative and zero exactly for equal points |
| Geometry.PointHeadingDistance2D | EnvironmentSimulator/Modules/CommonMini/CommonMini.cpp:435-439 | the heading argument is ignored: the result is the squared distance |
| Geometry.PointDistance2D | EnvironmentSimulator/Modules/CommonMini/CommonMini.cpp:416-419 | the distance is non-negative, squares to the squared distance, and is zero exactly for equal points |
| Geometry.DistanceMonotone | EnvironmentSimulator/Modules/CommonMini/CommonMini.cpp:416-419 | a smaller squared distance gives a distance that is not larger |
| Geometry.GetLengthOfLine2D | EnvironmentSimulator/Modules/CommonMini/CommonMini.cpp:501-504 | the length of a line is the distance between its endpoints |
| Geometry.GetLengthOfVector2D | EnvironmentSimulator/Modules/CommonMini/CommonMini.cpp:506-509 | the length is non-negative, squares to the squared norm, and is the distance from the origin |
| Geometry.GetLengthOfVector3D | EnvironmentSimulator/Modules/CommonMini/CommonMini.cpp:511-514 | the length is non-negative, squares to x² + y² + z², and is zero exactly for the zero vector |
| Geometry.NormalizeVec2D | EnvironmentSimulator/Modules/CommonMini/CommonMini.cpp:768-777 | the result points the same way as the input; it has length 1 unless the input is shorter than `SMALL_NUMBER`, in which case it is shorter than 1 |
| Geometry.ProjectPointOnVector2D | EnvironmentSimulator/Modules/CommonMini/CommonMini.cpp:441-461 | on a degenerate line the result is the first point; otherwise it lies on the line, the offset to it is perpendicular to the line, and a point already on the line is its own projection |
| Geometry.PointSideOfVec | EnvironmentSimulator/Modules/CommonMini/CommonMini.cpp:410-414 | +1 to the left of the directed line, -1 to the right, `SIGN(0)` on it |
| Geometry.PointSideOfVecReversed | EnvironmentSimulator/Modules/CommonMini/CommonMini.cpp:410-414 | reversing the line's direction swaps the sides |
| Geometry.PointSideOfVecSimilarity | EnvironmentSimulator/Modules/CommonMini/CommonMini.cpp:410-414 | shifting everything and scaling by a positive factor keeps the side |
| Geometry.PointToLineDistance2DSigned | EnvironmentSimulator/Modules/CommonMini/CommonMini.cpp:421-428 | the sign is positive to the left, negative to the right and zero on the line (each an if-and-only-if); the square of the value times the squared line length is the squared cross product |
| Geometry.SignedDistanceMagnitude | EnvironmentSimulator/Modules/CommonMini/CommonMini.cpp:421-428 | for a line with distinct points, the magnitude of the signed distance is the distance to the line |
| Geometry.DistanceFromPointToLine2D | EnvironmentSimulator/Modules/CommonMini/CommonMini.cpp:390-402 | the distance is that to the returned point, which is the foot of the perpendicular on the line (or the first point when the line is degenerate) |
| Geometry.LineDistanceIsMinimal | EnvironmentSimulator/Modules/CommonMini/CommonMini.cpp:390-402 | no point of the line is nearer than the returned distance |
| Geometry.LinePosition | EnvironmentSimulator/Modules/CommonMini/CommonMini.cpp:306-353 | for a point on the line, the position along the dominant axis is the parameter t with p = p1 + t·(p2 - p1) |
| Geometry.DominantAxisIsWide | EnvironmentSimulator/Modules/CommonMini/CommonMini.cpp:306-353 | on a non-degenerate segment the axis the test divides by spans at least `SMALL_NUMBER` |
| Geometry.BetweenMeansUnitPosition | EnvironmentSimulator/Modules/CommonMini/CommonMini.cpp:306-353 | the source's range test on the dominant coordinate holds exactly when the normalised position lies in [0, 1] |
| Geometry.PointInBetweenVectorEndpoints | EnvironmentSimulator/Modules/CommonMini/CommonMini.cpp:306-353 | degenerate segment: inside with sNorm 0; otherwise inside exactly when the position is in [0, 1], with sNorm that position; before the start sNorm is minus the distance to the start, past the end it is the distance to the end |
| Geometry.DistanceFromPointToEdge2D | EnvironmentSimulator/Modules/CommonMini/CommonMini.cpp:355-388 | the returned point lies on the closed segment and the distance is the distance to it; a degenerate segment gives its first point |
| Geometry.EdgeDistanceIsMinimal | EnvironmentSimulator/Modules/CommonMini/CommonMini.cpp:355-388 | no point of the closed segment is nearer than the returned distance |
| Geometry.EdgePointPosition | EnvironmentSimulator/Modules/CommonMini/CommonMini.cpp:355-388 | the returned point is the start of the segment plus the clamped position times the segment |
| Geometry.GetIntersectionOfTwoLineSegments | EnvironmentSimulator/Modules/CommonMini/CommonMini.cpp:287-304 | -1 exactly when the lines are (near) parallel, in which case the output point is left as it was; otherwise 0 and the point lies on both lines |
| Geometry.IntersectionIsUnique | EnvironmentSimulator/Modules/CommonMini/CommonMini.cpp:287-304 | when the lines cross, any point on both lines is the returned point |
| Geometry.DiagonalsCrossExample | EnvironmentSimulator/Modules/CommonMini/CommonMini.cpp:287-304 | the diagonals of the square (0,0)-(10,10) meet at (5,5) |
| Geometry.ParallelExample | EnvironmentSimulator/Modules/CommonMini/CommonMini.cpp:287-304 | two parallel lines give -1 and leave the output point alone |
| Geometry.IsPointWithinSectorBetweenTwoLines | EnvironmentSimulator/Modules/CommonMini/CommonMini.cpp:463-499 | inside exactly when the point is right of one line and left of the other; inside, sNorm is dist0 / MAX(SMALL_NUMBER, dist0 + dist1), negated when the point is left of the first line, and lies in [-1, 1]; outside, sNorm is -dist0 when the first line is nearer and dist1 otherwise, so \|sNorm\| is the smaller distance |
| Geometry.SectorSwapLines | EnvironmentSimulator/Modules/CommonMini/CommonMini.cpp:463-499 | taking the lines in the other order gives the same verdict, and inside, when the two distances add up to at least SMALL_NUMBER, the two \|sNorm\| values add up to 1 |
| Frames.RotateVec2D | EnvironmentSimulator/Modules/CommonMini/CommonMini.cpp:516-520 | a rotation keeps the length of the vector |
| Frames.RotateBack | EnvironmentSimulator/Modules/CommonMini/CommonMini.cpp:516-520 | rotating by an angle and then by its negation gives the vector back |
| Frames.RotateByZero | EnvironmentSimulator/Modules/CommonMini/CommonMini.cpp:516-520 | a rotation by zero changes nothing |
| Frames.Global2LocalCoordinates | EnvironmentSimulator/Modules/CommonMini/CommonMini.cpp:522-530 | the local coordinates have the length of the offset from the host |
| Frames.Local2GlobalCoordinates | EnvironmentSimulator/Modules/CommonMini/CommonMini.cpp:532-541 | the source's `cos(-θ)`, `sin(-θ)` formula is the rotation by +θ followed by the shift to the host |
| Frames.GlobalLocalRoundTrip | EnvironmentSimulator/Modules/CommonMini/CommonMini.cpp:522-541 | converting into the host frame with the negated heading and back gives the original point |
| Frames.LocalGlobalRoundTrip | EnvironmentSimulator/Modules/CommonMini/CommonMini.cpp:522-541 | converting local coordinates to global ones and back gives the same local coordinates |
| ByteOrder.SwapByteOrder | EnvironmentSimulator/Modules/CommonMini/CommonMini.cpp:543-564 | the in-place double loop leaves the buffer with every full chunk of `size` bytes below `bufSize` reversed and everything else untouched; values of fewer than two bytes are left alone |
| ByteOrder.ReverseChunkInPlace | EnvironmentSimulator/Modules/CommonMini/CommonMini.cpp:556-561 | the inner exchange loop reverses one chunk and touches nothing outside it |
| ByteOrder.SingleByteUnchanged | EnvironmentSimulator/Modules/CommonMini/CommonMini.cpp:548-552 | with a value size below two the buffer is returned unchanged |
| ByteOrder.SwappedTwice | EnvironmentSimulator/Modules/CommonMini/CommonMini.cpp:543-564 | swapping twice with the same size gives the buffer back |
| ByteOrder.ChunkIsReversed | EnvironmentSimulator/Modules/CommonMini/CommonMini.cpp:554-563 | chunk i of the result is chunk i of the input reversed |
| ByteOrder.TailUnchanged | EnvironmentSimulator/Modules/CommonMini/CommonMini.cpp:554-563 | the bytes after the last full chunk are not touched |
| Strings.SplitString | EnvironmentSimulator/Modules/CommonMini/CommonMini.cpp:640-654 | there is one piece more than there are separators, no piece holds the separator, and joining the pieces with it gives the string back |
| Strings.SplitJoin | EnvironmentSimulator/Modules/CommonMini/CommonMini.cpp:640-654 | splitting a join of separator-free pieces gives the pieces back |
| Strings.ToLower | EnvironmentSimulator/Modules/CommonMini/CommonMini.cpp:732-756 | every character is lower-cased in place (ASCII), so no upper-case letter is left |
| Strings.ToLowerIdempotent | EnvironmentSimulator/Modules/CommonMini/CommonMini.cpp:732-756 | lower-casing twice is lower-casing once |
| Strings.ToLowerKeepsLowerCase | EnvironmentSimulator/Modules/CommonMini/CommonMini.cpp:732-756 | text without upper-case letters is unchanged |
| Paths.DirNameOf | EnvironmentSimulator/Modules/CommonMini/CommonMini.cpp:656-661 | without a separator the result is `./`; otherwise it is a proper prefix followed by a separator |
| Paths.FileNameOf | EnvironmentSimulator/Modules/CommonMini/CommonMini.cpp:663-674 | the file name holds no separator, is a suffix of the path, and is the whole path when there is no separator |
| Paths.DirAndFileName | EnvironmentSimulator/Modules/CommonMini/CommonMini.cpp:656-674 | directory, last separator and file name put together give the path back |
| Paths.IsDirectoryName | EnvironmentSimulator/Modules/CommonMini/CommonMini.cpp:663-684 | true exactly for a non-empty name whose file name (`FileNameOf`) is empty; such a name is its directory (`DirNameOf`) followed by the final separator |
| Paths.FileNameExtOf | EnvironmentSimulator/Modules/CommonMini/CommonMini.cpp:686-707 | as written: empty exactly when the path has no `.`; otherwise the suffix from the last `.` of the whole path |
| Paths.FileNameExtOfCrossesSeparator | EnvironmentSimulator/Modules/CommonMini/CommonMini.cpp:686-707 | for `a.b/c` the source's extension is `.b/c`, while the file name `c` has none |
| Paths.FileNameExtOfIntended | EnvironmentSimulator/Modules/CommonMini/CommonMini.cpp:686-707 | a suffix of the file name, from its last `.`: it holds no separator and is empty exactly when the file name has no `.` |
| Paths.FileNameWithoutExtOf | EnvironmentSimulator/Modules/CommonMini/CommonMini.cpp:709-730 | with the `size_t` wrap-around written out, the result holds no separator and, followed by the extension of the file name, gives the file name |
| Paths.FileNameSplitAsWritten | EnvironmentSimulator/Modules/CommonMini/CommonMini.cpp:686-730 | with the source's extension, stem and extension of `a.b/c` do not give the file name back |
| Paths.CombineGuardAlwaysHolds | EnvironmentSimulator/Modules/CommonMini/CommonMini.cpp:176 | the source's test for a relative path holds for every path |
| Paths.CombineDirectoryPathAndFilepath | EnvironmentSimulator/Modules/CommonMini/CommonMini.cpp:172-191 | as written, every path gets a `./` unless it starts with `.`, and then the directory and `/` when a directory is given; the result ends with the path |
| Paths.CombineAbsoluteAsWritten | EnvironmentSimulator/Modules/CommonMini/CommonMini.cpp:172-191 | as written, the absolute path `/a` combined with `d` becomes `d/.//a` |
| Paths.CombineDirectoryPathAndFilepathIntended | EnvironmentSimulator/Modules/CommonMini/CommonMini.cpp:172-191 | absolute paths (root or drive letter) come back unchanged and relative ones are prefixed as above |
| Paths.CombineAbsoluteIntended | EnvironmentSimulator/Modules/CommonMini/CommonMini.cpp:172-191 | corrected, `/a` combined with `d` stays `/a` |
| Env.AddPath | EnvironmentSimulator/Modules/CommonMini/CommonMini.cpp:874-887 | returns 0 exactly when the path was not yet listed and -1 otherwise; the old list is a prefix of the new one, the path is listed afterwards, at most one entry is added, and on -1 nothing changes |
| Env.AddPathKeepsDistinct | EnvironmentSimulator/Modules/CommonMini/CommonMini.cpp:874-887 | adding a path keeps the list free of repeats and the path is in the list afterwards |
| Env.AddPathTwice | EnvironmentSimulator/Modules/CommonMini/CommonMini.cpp:874-887 | adding the same path again returns -1 and changes nothing |
| Options.AddOption | EnvironmentSimulator/Modules/CommonMini/CommonMini.cpp:1316-1326 | the new option is appended, unset and without arguments; everything else is kept |
| Options.AddedOptionFound | EnvironmentSimulator/Modules/CommonMini/CommonMini.cpp:1316-1326 | after adding, the name is found: at the new option, or at the earlier option of that name, which shadows it |
| Options.GetOption | EnvironmentSimulator/Modules/CommonMini/CommonMini.cpp:1475-1485 | the index of the first option with the name, or none exactly when no option has it |
| Options.GetOptionSet | EnvironmentSimulator/Modules/CommonMini/CommonMini.cpp:1348-1360 | true exactly when the first option of that name exists and was given |
| Options.IsOptionArgumentSet | EnvironmentSimulator/Modules/CommonMini/CommonMini.cpp:1362-1365 | for an existing option, the same answer as `GetOptionSet` |
| Options.GetOptionArg | EnvironmentSimulator/Modules/CommonMini/CommonMini.cpp:1367-1384 | a non-empty result is the argument at the index, cast to unsigned, of the first option of that name, which takes an argument, so an index past the end gives the empty text; an index within range gives that argument; a negative index, cast to unsigned, finds nothing unless the option has more than 2^31 arguments |
| Options.ChangeOptionArg | EnvironmentSimulator/Modules/CommonMini/CommonMini.cpp:1399-1411 | -1 and no change exactly when the option is unknown or the index is out of range; otherwise 0 and only that argument is replaced |
| Options.ChangeThenGet | EnvironmentSimulator/Modules/CommonMini/CommonMini.cpp:1367-1411 | after a successful change the option is still found at the same position; when it takes an argument it reads back the new value at that index, and every other index reads as before |
| Options.Step | EnvironmentSimulator/Modules/CommonMini/CommonMini.cpp:1426-1470 | one pass moves forward by one argument, or by two exactly when it meets an option that takes an argument and a value follows; an option it meets is marked as given, except when its argument is missing, which unmarks it and makes the result -1; every other option is kept; an unknown prefixed argument is appended to the unknown list and nothing else is |
| Options.ParseArgs | EnvironmentSimulator/Modules/CommonMini/CommonMini.cpp:1413-1473 | the program name is the first argument without directory and extension; all arguments are appended to the recorded ones; option arguments only grow, by supplied values; only prefixed arguments that name no option and no graphics-library option become unknown; the result is 0, or -1 only when an option that needs an argument appears |
| Options.TakesNextArgument | EnvironmentSimulator/Modules/CommonMini/CommonMini.cpp:1441-1447 | wherever the loop meets an option with an argument and the next argument does not start with `--`, that argument is collected for it |
| Options.TakesDefault | EnvironmentSimulator/Modules/CommonMini/CommonMini.cpp:1448-1451 | with no such next argument, the non-empty default is collected |
| Options.MissingArgumentFails | EnvironmentSimulator/Modules/CommonMini/CommonMini.cpp:1452-1457 | with neither, the parse from that position returns -1 and the option is marked as not given; it stays unmarked when no later argument names it |
| Options.ParseKeepsOption | EnvironmentSimulator/Modules/CommonMini/CommonMini.cpp:1426-1470 | an option that no argument from the position on names comes out of the loop unchanged |
| Options.SetStaysSet | EnvironmentSimulator/Modules/CommonMini/CommonMini.cpp:1436-1451 | an option without an argument, or with a default, stays marked as given once marked |
| Options.NamedOptionSet | EnvironmentSimulator/Modules/CommonMini/CommonMini.cpp:1436-1451 | an argument that names such an option leaves it marked, so `GetOptionSet` reports it after the loop |
| Options.AllArgumentsRecorded | EnvironmentSimulator/Modules/CommonMini/CommonMini.cpp:1421-1424 | after parsing, `IsInOriginalArgs` still finds every string it found before, and every program argument |
| Options.DefaultsNeverFail | EnvironmentSimulator/Modules/CommonMini/CommonMini.cpp:1441-1458 | when every option with an argument has a default, parsing returns 0 |
| Options.UnprefixedNeverUnknown | EnvironmentSimulator/Modules/CommonMini/CommonMini.cpp:1430-1434 | arguments without the prefix never end up in the unknown list |
| Options.OnlyRecordedArgumentsFound | EnvironmentSimulator/Modules/CommonMini/CommonMini.cpp:1487-1495 | after parsing, `IsInOriginalArgs` answers true only for a string it found before or a program argument; with `Options.AllArgumentsRecorded` this is an if-and-only-if, and `Options.Reset` makes it false for every string |
| Options.UnknownArgsAfterParse | EnvironmentSimulator/Modules/CommonMini/CommonMini.cpp:1497-1500 | `HasUnknownArgs` after `ParseArgs` holds when it held before or the first argument is unknown, and only when it held before or some argument is a prefixed name of no option and no graphics-library option |
| Options.UnknownReported | EnvironmentSimulator/Modules/CommonMini/CommonMini.cpp:1459-1467 | an unknown argument at a position the loop visits ends up in the unknown list, so `HasUnknownArgs` holds |
| Options.Reset | EnvironmentSimulator/Modules/CommonMini/CommonMini.cpp:1502-1510 | afterwards no option is found and no argument is recorded; the unknown list and the program name are kept |
| OpenDrive.FixNonLegalChars | support/python/src/command/generate/opendrive.py:228-244 | the result holds none of `/`, `+`, `-`, `%`, and a name without them is returned unchanged |
| OpenDrive.FixNonLegalCharsIdempotent | support/python/src/command/generate/opendrive.py:240-244 | cleaning a cleaned name changes nothing |
| OpenDrive.FixNonLegalCharsIsSpellOut | support/python/src/command/generate/opendrive.py:240-244 | the four whole-string replacements equal one pass that spells out each character on its own |
| OpenDrive.ReplaceXsdTypes | support/python/src/command/generate/opendrive.py:200-226 | a known type is translated by the table (xs:string to std::string, xs:double to double, xs:integer and xs:negativeInteger to int, xs:float to float, t_grEqZero and t_grZero to double); any other name is returned unchanged |
| OpenDrive.ReplaceXsdTypesIdempotent | support/python/src/command/generate/opendrive.py:200-226 | translating a translated type changes nothing |
| OpenDrive.LeafNames | support/python/src/command/generate/opendrive.py:108-110 | the member names are found exactly when every second-level value is a string |
| OpenDrive.InnerNames | support/python/src/command/generate/opendrive.py:107-110 | the member names are found exactly when every first-level value is a dictionary of strings |
| OpenDrive.Matching | support/python/src/command/generate/opendrive.py:111-114 | the items kept are exactly those whose key contains the member name |
| OpenDrive.AddMember | support/python/src/command/generate/opendrive.py:110-120 | one member name adds exactly the items whose key contains it, with their values (an item named like the `double` member keeps its value when the name is not a core type), plus the `double` member for a core type, which holds the empty text unless an item of that name is picked up |
| OpenDrive.MembersDict | support/python/src/command/generate/opendrive.py:105-121 | a struct's member dictionary holds exactly the items picked up by its names, with their values (an item named like the `double` member keeps its value when no name is a core type), plus the `double` member when a name is a core type, holding the empty text unless an item of that name is picked up |
| OpenDrive.CollectedKeys | support/python/src/command/generate/opendrive.py:103-115 | the `struct_members` list holds exactly the keys picked up by some member name of some struct |
| OpenDrive.CopyOthers | support/python/src/command/generate/opendrive.py:122-128 | exactly the keys that are neither struct keys nor collected are copied, with their values, and struct entries are kept |
| OpenDrive.UnionToStruct | support/python/src/command/generate/opendrive.py:85-129 | fails exactly when a struct value is not a dictionary of dictionaries of strings; otherwise every key containing "struct" is kept with its member dictionary, every output key is an input key, and each other input key is kept with its value exactly when no struct collected it |

## Left out

- Logging (`Logger`, `CSV_Logger`, the `LOG` call in `ParseArgs`), `ParseModelIds`, `GetModelFilenameById`, `FileExists`, `SE_WritePPM` and other file output: file and console I/O.
- Threads, mutexes, `SE_getSimTimeStep`, sleeping and the random seed in the `SE_Env` constructor: clocks, threads and randomness.
- Version accessors (`esmini_git_*`), `ControlDomain2Str`, `strtoi` and `strtod`: trivial wrappers or lookups of C library calls.
- `SE_Option::Usage`, `PrintUsage` and `PrintUnknownArgs`: they only print.
- `GetAngleOfVector`, `DistanceFromPointToLine2DWithAngle`, `OffsetVec2D`, `ZYZ2EulerAngles` and `R0R12EulerAngles`: they need `atan2` or three-dimensional rotations, beyond the `sin`/`cos`/`sqrt` model.
- Floating-point rounding, infinities and NaN: doubles are modelled as exact reals, so every contract holds for exact arithmetic only.
- The locale of `ToLower`: only ASCII letters are mapped.
- The non-pure parts of `opendrive.py`: template rendering, JSON dumping, file writes, XML parsing and `generate_opendrive`.
- `Hello-World_coding-example/main.cpp`: an example program.
- Paths.FileNameWithoutExtOf: requires the name to be shorter than 2^64 characters, a bound every `std::string` meets.
- Options.ParseArgs: requires at least one argument, since the source reads the first one unconditionally. Its own contract does not state which option each later value belongs to or which options end up marked as given, because which arguments the loop visits depends on the values it consumes. `Step` states both for one pass. `TakesNextArgument`, `TakesDefault`, `MissingArgumentFails`, `NamedOptionSet` and `ParseKeepsOption` state them at each position the loop visits.
- OpenDrive.UnionToStruct: the output is a map, so the key order of the Python dictionary it builds is not modelled.

## Findings

| source | as written | input that shows it | evidently intended | confidence | as-written member | corrected member |
|---|---|---|---|---|---|---|
| EnvironmentSimulator/Modules/CommonMini/CommonMini.cpp:176 | the relative-path test joins `file_path[0] != '/'`, `file_path[0] != '\\'` and `file_path[1] != ':'` with `\|\|`, so it holds for every path and absolute paths are prefixed too | directory `d`, path `/a` gives `d/.//a` | join the three tests with `&&`, so that only relative paths are prefixed, as the comment in the branch says | high, not executed | Paths.CombineDirectoryPathAndFilepath (shown by Paths.CombineAbsoluteAsWritten) | Paths.CombineDirectoryPathAndFilepathIntended (Paths.CombineAbsoluteIntended) |
| EnvironmentSimulator/Modules/CommonMini/CommonMini.cpp:686-707 | `FileNameExtOf` computes the position after the last separator but searches the last `.` in the whole path | `a.b/c` gives `.b/c`, while `FileNameWithoutExtOf` gives `c` for the same path | search the last `.` from the start of the file name, as `FileNameWithoutExtOf` effectively does | medium, not executed | Paths.FileNameExtOf (shown by Paths.FileNameExtOfCrossesSeparator and Paths.FileNameSplitAsWritten) | Paths.FileNameExtOfIntended (with Paths.FileNameWithoutExtOf) |
