# Java-neural-network: construction, weight file reader and writer

This project is a Dafny model of the structural core of j6k1/Java-neural-network, a small
multilayer perceptron library. It covers five pieces:

- **`NN`:** the constructor's topology check (at least three layers, `FIdentity` on the
  input layer), the loading of one weight matrix per layer transition through the reader
  (or the data of the initial-data creator), the reader's `close()`, the shape check of the
  weight store, the input-length guard at the top of `apply`, and the deep copy
  `getClonedLayers`.
- **`TextFileInputReader`:** a state machine over the lines of the weight file. It skips
  lines that trim to nothing or start with `#`, splits the other lines on single spaces,
  hands the tokens out one by one through its `line` and `index` fields, and fills an a × b
  matrix in row-major order in `readVec`.
- **`PersistenceWithTextFile.save`:** the text it writes for a network: the header, a
  `#layer: i-1` marker per layer, each row's `Double.toString` values joined by single
  spaces and ended by `'\n'`, and the trailer.
- **`NNUnit`:** the immutable (size, activation) record.
- **`FIdentity` and `FReLU`:** modelled exactly over the reals. `FSigmoid` and `FTanh`
  appear only as variants.

The modules are:

- `Errors`: the exceptions as an `Error` datatype; `Outcome` for a value or an exception.
- `Activation`, `Units`: the activation functions and `NNUnit`.
- `JavaString`: `trim()`, `split(" ")`, `String.join` and `Integer.toString`.
- `TokenStream`: the token stream of a file as a function of its lines, and `readVec`'s
  reading of rows from it.
- `TextFileInput`: the `TextFileInputReader` class. It keeps the file's lines, `pos` (the
  lines read), `line`, `index` and a `closed` flag. Its methods are proved against
  `TokenStream`.
- `Network`: the `NN` class. The copy and load loops work on arrays and are proved against
  the functions `StoreCopy` and `LoadLayers`.
- `Persistence`: the text `save` writes (`Saved`), the writer methods, the
  `PersistenceWithTextFile` class, and the theorems about what the reader gets back from
  that text.

`Double.parseDouble` and `Double.toString` are parameters: `parse: string -> Option<real>`
and `show: real -> string`. The theorems about saved files assume two things. First,
`show` renders each value as one token that is not a comment (`PrintsTokens`). Second,
for the round trip, `parse(show(v)) == Some(v)` for each weight v that was written
(`StoreRoundTrips`). The object that
`initialDataCreator.create()` returns is passed to `NN.Create` as the array `initial`.

Two facts about the loader and the writer shape the model:

- Layer i is read as `units[i].size` rows of `units[i + 1].size` values. The shape check
  counts only the rows, and the widths of the rows are never checked.
- The header and the layer markers are written without a line break after them.

## Model

| member | source | states |
|---|---|---|
| `Activation.ReLUApply` | src/j6k1/ai/nn/FReLU.java:5-7 | the result is never negative; it is u for u > 0 and 0 otherwise |
| `Activation.ReLUDerive` | src/j6k1/ai/nn/FReLU.java:10-12 | the slope is 0 or 1, and it is 1 exactly when e > 0 |
| `Activation.ReLUIdempotent` | src/j6k1/ai/nn/FReLU.java:6 | applying FReLU twice is applying it once |
| `Activation.ReLUIsInputTimesSlope` | src/j6k1/ai/nn/FReLU.java:5-12 | apply(u) == u * derive(u) for every u |
| `Activation.ReLUMonotone` | src/j6k1/ai/nn/FReLU.java:6 | u <= v implies apply(u) <= apply(v) |
| `Activation.IdentityIdempotent` | src/j6k1/ai/nn/FIdentity.java:5-7 | apply(u) == u, so applying it twice is applying it once |
| `Activation.IdentitySlopeConstant` | src/j6k1/ai/nn/FIdentity.java:10-12 | derive is 1 at every argument, independent of it |
| `Activation.IdentityOrderPreserving` | src/j6k1/ai/nn/FIdentity.java:6 | u < v exactly when apply(u) < apply(v); equal outputs imply equal inputs |
| `Units.Unit` | src/j6k1/ai/nn/NNUnit.java:7-10 | the one-argument constructor keeps the size, whatever it is, and sets FIdentity |
| `Units.UnitWith` | src/j6k1/ai/nn/NNUnit.java:12-16 | the two-argument constructor stores size and f as given, with no validation |
| `Network.UnitMakesValidInputLayer` | src/j6k1/ai/nn/NNUnit.java:7-10 | an input layer built with NNUnit(size) passes the topology check of any topology of three or more layers |
| `Network.OtherInputLayerRejected` | src/j6k1/ai/nn/NN.java:16-20 | any other activation on the input layer is rejected with the input-layer error, whatever the size |
| `Network.TopologyErrorMeaning` | src/j6k1/ai/nn/NN.java:11-20 | the topology passes exactly when it has at least 3 layers and FIdentity on layer 0 |
| `Network.FirstMismatchMeaning` | src/j6k1/ai/nn/NN.java:55-62 | the row-count loop finds none exactly when every layer matches; otherwise it finds the first mismatching layer and reports its two counts |
| `Network.ShapeErrorMeaning` | src/j6k1/ai/nn/NN.java:48-63 | the shape check passes exactly when there are units.length - 1 layers and layer i has units[i].size rows; otherwise it reports the layer count or the first wrong row count |
| `Network.ValidateShape` | src/j6k1/ai/nn/NN.java:48-63 | the validation loop returns the error of the shape check, or none |
| `Network.NN.constructor` | src/j6k1/ai/nn/NN.java:66-70 | the private constructor stores the units and the weight array as they are |
| `Network.NN.Create` | src/j6k1/ai/nn/NN.java:9-64 | an invalid topology fails before the reader is touched. Without a source, the initial data is shape-checked and kept by reference, and the reader is untouched. With a source, readVec is called once per transition up to the first failure, then close once, and a read failure is wrapped. A network that is built is Valid |
| `Network.NN.Load` | src/j6k1/ai/nn/NN.java:23-41 | with a source, the loaded weights are those of the load spec in fresh arrays, the reader is closed on both paths, and a load that succeeds always passes the shape check |
| `Network.NN.Build` | src/j6k1/ai/nn/NN.java:48-63 | the shape check, then a fresh network holding the units and the array given |
| `Network.NN.LoadFrom` | src/j6k1/ai/nn/NN.java:23-41 | the read loop, then close() in the finally block. The trace records the readVec calls made, then one close. A failure is wrapped in a runtime error. The loaded store equals LoadLayers' result |
| `Network.NN.ReadLayers` | src/j6k1/ai/nn/NN.java:25-33 | the loop over transitions calls readVec(units[i].size, units[i+1].size) in order and stops at the first failure; its result and trace match LoadLayers and Attempts |
| `Network.NN.ReadNextLayer` | src/j6k1/ai/nn/NN.java:28-31 | one pass of the read loop extends the loaded prefix by one layer, or fails as the whole load fails |
| `Network.LoadLayersShape` | src/j6k1/ai/nn/NN.java:28-31 | a successful load has n layers, and layer i has units[i].size rows of units[i+1].size values |
| `Network.LoadLayersConsumes` | src/j6k1/ai/nn/NN.java:28-31 | a successful load of n layers consumes exactly WeightCount(units, n) tokens |
| `Network.LoadLayersRowMajor` | src/j6k1/ai/nn/NN.java:28-31 | layer i holds, row-major, the parses of the tokens right after the weights of the layers before it |
| `Network.LoadLayersSucceeds` | src/j6k1/ai/nn/NN.java:27-33 | the load succeeds exactly when the sizes can be allocated and the stream holds WeightCount tokens that all parse |
| `Network.LoadLayersFailureSticks` | src/j6k1/ai/nn/NN.java:27-33 | once a layer fails, loading more layers fails with the same exception |
| `Network.AttemptsAfterFailure` | src/j6k1/ai/nn/NN.java:27-33 | when layer m - 1 is the first to fail, exactly m readVec calls are made |
| `Network.LoadFailure` | src/j6k1/ai/nn/NN.java:27-40 | the first failing layer k decides the exception of the whole load, after k + 1 readVec calls |
| `Network.AttemptsOnSuccess` | src/j6k1/ai/nn/NN.java:28-31 | a load that succeeds calls readVec once per transition |
| `Network.LoadedStorePassesShapeCheck` | src/j6k1/ai/nn/NN.java:41-63 | a store holding a successful load always passes the shape check |
| `Network.NN.InputMatchesFirstLayer` | src/j6k1/ai/nn/NN.java:72-78 | on a valid network the guard accepts exactly the inputs one shorter than the first weight layer's row count; any other input fails with the input-length error |
| `Network.CopyEachMeaning` | src/j6k1/ai/nn/NN.java:185-198 | an element-wise copy succeeds exactly when every element copies; it then holds the copies in order, and otherwise fails like the first element that fails |
| `Network.RowCopyIdentity` | src/j6k1/ai/nn/NN.java:191-196 | a row copy reproduces the row exactly when the row is zero beyond the entries the loop copies |
| `Network.MatrixCopyIdentity` | src/j6k1/ai/nn/NN.java:187-197 | a matrix copy reproduces the matrix exactly when every row copy does |
| `Network.StoreCopyIdentity` | src/j6k1/ai/nn/NN.java:183-200 | a store copy reproduces the store exactly when every row copy does |
| `Network.StoreCopyExact` | src/j6k1/ai/nn/NN.java:181-201 | copying each row through its own length reproduces the store |
| `Network.StoreCopySucceeds` | src/j6k1/ai/nn/NN.java:193-196 | with the bound layers.length, the copy succeeds exactly when every row has at least that many entries |
| `Network.StoreCopyFailure` | src/j6k1/ai/nn/NN.java:193-196 | a failed copy names a row shorter than the bound: the index and length reported are that row's length |
| `Network.StoreCopyKeepsShape` | src/j6k1/ai/nn/NN.java:183-191 | a copy that succeeds has as many layers, rows per layer and entries per row as the original |
| `Network.CopyRow` | src/j6k1/ai/nn/NN.java:191-196 | a fresh row holding RowCopy of the source row, or the out-of-bounds exception at index row.length |
| `Network.CopyNextRow` | src/j6k1/ai/nn/NN.java:189-196 | one pass of the row loop extends the copied prefix by one fresh row, or fails as the whole matrix copy fails |
| `Network.CopyMatrix` | src/j6k1/ai/nn/NN.java:187-197 | fresh arrays at both levels, holding MatrixCopy of the source |
| `Network.CopyNextLayer` | src/j6k1/ai/nn/NN.java:185-198 | one pass of the layer loop extends the copied prefix by one fresh matrix, or fails as the whole copy fails |
| `Network.CopyLayers` | src/j6k1/ai/nn/NN.java:183-198 | every layer copied into fresh arrays, holding StoreCopy of the source, or its exception |
| `Network.CopyStore` | src/j6k1/ai/nn/NN.java:181-201 | fresh arrays at all three levels, holding StoreCopy of the source |
| `Network.NN.GetClonedLayers` | src/j6k1/ai/nn/NN.java:181-201 | as written: fresh arrays at every level holding StoreCopy with the bound layers.length, or its out-of-bounds exception |
| `Network.NN.CloneLayers` | src/j6k1/ai/nn/NN.java:181-201 | the intended deep copy: fresh arrays at every level holding exactly the network's weights |
| `Network.ClonedLayersThrowsOnNarrowLayer` | src/j6k1/ai/nn/NN.java:193-196 | for unit sizes 3, 2, 1 the copy as written throws IndexOutOfBounds(1, 1), while the intended copy gives the weights back |
| `Network.ClonedLayersDropsWeights` | src/j6k1/ai/nn/NN.java:193-196 | for unit sizes 3, 4, 2 the copy as written succeeds but differs from the weights |
| `TokenStream.KeptLineTokens` | src/j6k1/ai/nn/TextFileInputReader.java:70-74 | a kept line yields at least one token, none of which holds a space; split(" ") drops nothing from it |
| `TokenStream.DoubleSpaceGivesEmptyToken` | src/j6k1/ai/nn/TextFileInputReader.java:74 | two adjacent spaces give an empty token between the words around them |
| `TokenStream.TokensAppend` | src/j6k1/ai/nn/TextFileInputReader.java:65-79 | the tokens of two runs of lines are the tokens of the first, then those of the second |
| `TokenStream.TokensOfSkipped` | src/j6k1/ai/nn/TextFileInputReader.java:70-72 | blank lines and lines starting with '#' contribute no token |
| `TokenStream.TokensHaveNoSpace` | src/j6k1/ai/nn/TextFileInputReader.java:74 | no token of any file contains a space |
| `TokenStream.ReadValuesMeaning` | src/j6k1/ai/nn/TextFileInputReader.java:41-48 | n values are read exactly when n tokens exist and parse, and they are their parses in order; a failure is the end of input or a wrapped NumberFormatException of a token that does not parse |
| `TokenStream.ReadValuesStep` | src/j6k1/ai/nn/TextFileInputReader.java:41-47 | reading one more value is one nextDouble on the tokens left: its value is appended, or its exception, rethrown, ends the row |
| `TokenStream.ReadRowsRowMajor` | src/j6k1/ai/nn/TextFileInputReader.java:37-48 | readVec(a, b) consumes exactly a*b tokens and holds the parse of token i*b+j at [i][j], rows spanning lines freely |
| `TokenStream.ReadRowsShape` | src/j6k1/ai/nn/TextFileInputReader.java:35-39 | a successful readVec(a, b) returns a rows of b values each |
| `TokenStream.ReadRowsSucceeds` | src/j6k1/ai/nn/TextFileInputReader.java:35-49 | readVec(a, b) succeeds exactly when b can be allocated (or a is 0) and the next a*b tokens exist and parse |
| `TokenStream.ReadRowsFailureSticks` | src/j6k1/ai/nn/TextFileInputReader.java:43-47 | once a row fails, reading further rows fails with the same exception |
| `TokenStream.TokenizedFlatten` | src/j6k1/ai/nn/TextFileInputReader.java:65-79 | the per-line token lists from line p on, flattened, are the token stream of those lines |
| `TextFileInput.TextFileInputReader.constructor` | src/j6k1/ai/nn/TextFileInputReader.java:17-31 | sourceExists is the existence flag, a constant. The reader starts with no line and index 0. It will hand out exactly the tokens of the kept lines, or none without a file |
| `TextFileInput.NextLineTokens` | src/j6k1/ai/nn/TextFileInputReader.java:68-74 | the readLine loop skips lines that contribute no token and stops after the first kept line, whose split tokens it returns; without one it reaches the end of the file |
| `TextFileInput.TextFileInputReader.Refill` | src/j6k1/ai/nn/TextFileInputReader.java:66-76 | with the current line used up, it loads the next kept line without changing what is left to read, or fails with a NullPointerException (no stream, or the end of the file) or an IOException (closed stream), and only when nothing is left |
| `TextFileInput.TextFileInputReader.NextToken` | src/j6k1/ai/nn/TextFileInputReader.java:65-79 | returns the first token still to be handed out and removes it; with none left it fails with the exception readLine raises |
| `TextFileInput.TextFileInputReader.NextDouble` | src/j6k1/ai/nn/TextFileInputReader.java:81-83 | the parse of the next token, a NumberFormatException for a token that does not parse, and one token consumed |
| `TextFileInput.TextFileInputReader.NextEntry` | src/j6k1/ai/nn/TextFileInputReader.java:43-47 | one try block of readVec: the next value is appended to the row read so far, or the row fails as ReadValues says |
| `TextFileInput.TextFileInputReader.ReadRow` | src/j6k1/ai/nn/TextFileInputReader.java:39-48 | a fresh row holding the next b values, with b tokens consumed, or the exception ReadValues gives |
| `TextFileInput.TextFileInputReader.ReadRowArrays` | src/j6k1/ai/nn/TextFileInputReader.java:35-49 | a distinct fresh rows holding ReadRows of the stream, with the tokens after them left, or its exception |
| `TextFileInput.TextFileInputReader.ReadVec` | src/j6k1/ai/nn/TextFileInputReader.java:34-52 | the call is logged. The result is a fresh a x b matrix holding ReadMatrix of the stream, with the tokens after it left, or ReadMatrix's exception (a negative size included) |
| `TextFileInput.TextFileInputReader.Close` | src/j6k1/ai/nn/TextFileInputReader.java:54-63 | the call is logged. With a stream, the reader is closed and close returns true. Without one, close throws a NullPointerException |
| `JavaString.TrimEmpty` | src/j6k1/ai/nn/TextFileInputReader.java:71-72 | trim() gives the empty string exactly when every character is at most U+0020 |
| `JavaString.JoinSplit` | src/j6k1/ai/nn/PersistenceWithTextFile.java:33-35 | joining the pieces of a split with the separator gives the string back |
| `JavaString.SplitJoin` | src/j6k1/ai/nn/PersistenceWithTextFile.java:33-35 | splitting a join of separator-free pieces gives the pieces back |
| `JavaString.SplitExtendLast` | src/j6k1/ai/nn/PersistenceWithTextFile.java:32-36 | text without a line break, written after some text, extends its last line |
| `JavaString.JavaSplitIsSplitAll` | src/j6k1/ai/nn/TextFileInputReader.java:74 | on a non-empty string not ending in the separator, split(" ") keeps every piece |
| `JavaString.IntToStringValue` | src/j6k1/ai/nn/PersistenceWithTextFile.java:28 | the decimal rendering of an int reads back to the same int, sign included |
| `Persistence.LayerMarker` | src/j6k1/ai/nn/PersistenceWithTextFile.java:28 | the marker of a layer is non-empty, starts with '#' and holds no line break |
| `Persistence.RowTokens` | src/j6k1/ai/nn/PersistenceWithTextFile.java:33-35 | one rendered token per weight, in order |
| `Persistence.StoreTokensCount` | src/j6k1/ai/nn/PersistenceWithTextFile.java:26-38 | a store shaped by the units renders to as many tokens as the loader reads for it |
| `Persistence.RowLine` | src/j6k1/ai/nn/PersistenceWithTextFile.java:32-36 | a row's text holds no line break, and as a line of its own it gives the reader exactly the row's tokens |
| `Persistence.CommentLine` | src/j6k1/ai/nn/TextFileInputReader.java:72 | a line starting with '#' gives the reader no token, whatever follows on it |
| `Persistence.FileLines` | src/j6k1/ai/nn/TextFileInputReader.java:71 | the lines readLine returns: the finished lines, then the last one unless it is empty |
| `Persistence.RowsTextLines` | src/j6k1/ai/nn/PersistenceWithTextFile.java:30-37 | writing a layer's rows after an open comment line loses its first row to that line; after an empty line it loses nothing |
| `Persistence.LayersTextLines` | src/j6k1/ai/nn/PersistenceWithTextFile.java:24-38 | after the header and n layers as written, the reader has every row but the first of each layer |
| `Persistence.LayersTextCorrectedLines` | src/j6k1/ai/nn/PersistenceWithTextFile.java:24-38 | with the header and markers ending their lines, the reader has every row of the n layers |
| `Persistence.TrailerLine` | src/j6k1/ai/nn/PersistenceWithTextFile.java:40 | the trailer ends the file on a comment line and adds no token |
| `Persistence.SavedReadBack` | src/j6k1/ai/nn/PersistenceWithTextFile.java:24-40 | the reader's token stream of a saved file is the weights of every row except the first row of each layer |
| `Persistence.SavedNetworkDoesNotLoadBack` | src/j6k1/ai/nn/PersistenceWithTextFile.java:24-36 | a saved network whose weights have the shape the units imply (every loaded network does), with one unit or more in each of its first two layers, cannot be loaded back from its own file |
| `Persistence.SavedCorrectedReadBack` | src/j6k1/ai/nn/PersistenceWithTextFile.java:24-40 | in the corrected layout the token stream is the weights of every row, layer after layer |
| `Persistence.SavedCorrectedLoadsBack` | src/j6k1/ai/nn/PersistenceWithTextFile.java:24-40 | in the corrected layout, when each written weight parses back from its rendering, loading gives back exactly the saved weights and consumes the whole stream |
| `Persistence.SavedCorrectedLoadsBackExample` | src/j6k1/ai/nn/PersistenceWithTextFile.java:24-40 | the round trip has instances: two 1 x 1 layers of 2.0, rendered as "2", load back from the corrected file |
| `Persistence.LoadStoreTokens` | src/j6k1/ai/nn/NN.java:28-31 | the loader reads the rendered tokens of the first n layers back into those layers, leaving what follows, when each weight of the store parses back from its rendering |
| `Persistence.ReadValuesOfRow` | src/j6k1/ai/nn/TextFileInputReader.java:41-48 | reading k values from a row's tokens gives its first k weights, when each weight of the row parses back from its rendering |
| `Persistence.ReadRowsOfMatrix` | src/j6k1/ai/nn/TextFileInputReader.java:37-49 | reading k rows from a matrix's tokens gives its first k rows and leaves what follows, when each weight of the matrix parses back from its rendering |
| `Persistence.ClonedShaped` | src/j6k1/ai/nn/PersistenceWithTextFile.java:22 | the copy save writes has the shape of the network's weights |
| `Persistence.WriteRows` | src/j6k1/ai/nn/PersistenceWithTextFile.java:30-37 | the text of a layer's rows: each joined by spaces and ended by '\n' |
| `Persistence.WriteStore` | src/j6k1/ai/nn/PersistenceWithTextFile.java:24-40 | the text written for a store is Saved: header, marker and rows of each layer, trailer |
| `Persistence.WriteStoreCorrected` | src/j6k1/ai/nn/PersistenceWithTextFile.java:24-40 | the text of the corrected layout, SavedCorrected |
| `Persistence.PersistenceWithTextFile.constructor` | src/j6k1/ai/nn/PersistenceWithTextFile.java:13-16 | the writer is bound to a destination file, whose contents are untouched until save |
| `Persistence.PersistenceWithTextFile.Save` | src/j6k1/ai/nn/PersistenceWithTextFile.java:17-47 | the file is truncated. If getClonedLayers throws, the exception propagates and the file stays empty. Otherwise the file holds Saved of the copy and save returns true. Only the file changes, never the network's weights |
| `Persistence.PersistenceWithTextFile.SaveCorrected` | src/j6k1/ai/nn/PersistenceWithTextFile.java:17-47 | with the intended deep copy and line breaks, the file holds SavedCorrected of the network's weights and save returns true |

## Left out

- Files and streams. `File.exists`, the stream chain, UTF-8 encoding and flushing are not
  modelled. The reader's file is the sequence of lines `readLine` would return. The
  destination file is the `contents` string, and the text reaches it whole at the end of
  `save`. I/O failures of the streams are not modelled.
- `Double.parseDouble` and `Double.toString` are parameters, so their formats are not
  modelled. `SavedReadBack` and the theorems built on it assume `PrintsTokens(show)`.
  `SavedCorrectedLoadsBack` also assumes `parse(show(v)) == Some(v)` for every weight v
  written (`StoreRoundTrips`).
- Weights are reals, so NaN, infinities, -0.0 and rounding are not modelled.
- The forward and backward passes (`apply`, `solve`, `learn`) are double-precision
  arithmetic. Only the input-length guard of `apply` is modelled.
- `FSigmoid` and `FTanh` use `Math.exp` and `Math.tanh`. They are variants without bodies.
- `null` arguments and `null` rows inside a weight array cannot occur, because Dafny's array
  types are non-null. A `null` that `initialDataCreator.create()` might return is not
  modelled.
- `readLine` is taken to split the file on `'\n'` only; `'\r'` terminators are not modelled.
- `Persistence.PersistenceWithTextFile.Save` keeps the network's weights unchanged only
  through its `modifies this` frame; it has no `ensures` about the network.
- Network.NN.Create and Network.NN.LoadFrom take the concrete `TextFileInputReader`, whereas
  the constructor accepts any `IInputReader`. Two paths that only another reader can take
  are therefore not modelled. First, a store that loads but fails the shape check after the
  load: with this reader `LoadedStorePassesShapeCheck` proves that never happens. Second, an
  exception that `reader.close()` raises in the finally block, which the constructor wraps:
  this reader's `close` never throws when a source exists.
- The interfaces `IInputReader`, `IAfterProcess`, `IActivateFunction`,
  `IInitialDataCreator` and `IPersistence`, and the exception classes, are left out. They
  hold no logic.

## Findings

| source | as written | input that shows it | evidently intended | confidence | as-written member | corrected member |
|---|---|---|---|---|---|---|
| src/j6k1/ai/nn/NN.java:193 | the innermost copy loop of getClonedLayers runs to `this.layers.length` (the number of weight layers) instead of the row's length | unit sizes 3, 2, 1: the rows of the last layer hold 1 weight, and the loop reads index 1 and throws. Unit sizes 3, 4, 2: rows of 4 weights get only 2 copied, and the copy holds zeros | `k < this.layers[i][j].length`, a deep copy equal to the weights | not executed | `Network.NN.GetClonedLayers`, `Network.ClonedLayersThrowsOnNarrowLayer`, `Network.ClonedLayersDropsWeights` | `Network.NN.CloneLayers`, `Network.StoreCopyExact` |
| src/j6k1/ai/nn/PersistenceWithTextFile.java:24-36 | save writes the header and each `#layer:` marker with no line break after them, so each shares its line with the first row that follows | any network whose weights have the shape the units imply (every loaded network does), with one unit or more in each of its first two layers: the reader skips every line starting with '#', loses the first row of every layer, and loading the saved file fails | a `'\n'` after the header and after each marker, so that save then load gives the weights back | not executed | `Persistence.Saved`, `Persistence.SavedReadBack`, `Persistence.SavedNetworkDoesNotLoadBack` | `Persistence.SavedCorrected`, `Persistence.SavedCorrectedLoadsBack`, `Persistence.PersistenceWithTextFile.SaveCorrected` |
