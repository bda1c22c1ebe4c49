# Form-to-multipart uploader, modelled in Dafny

This project models the core of `Uploader` (`complex/uploader.js`). `Uploader`
reads the controls of an HTML form and posts them as a `multipart/form-data`
body without using the browser's native form submission. The model has two
parts:

- **Field extraction** (`form_fields.dfy`, module `FormFields`). A form control
  is a tagged union: `Button`, `Input` (with its `type` attribute, `checked`
  flag and chosen files), `Select` (single or multiple, with its options), and
  `Other`. `Other` stands for every element that has no `_<name>Field` handler:
  fieldsets, and elements such as textarea, output or object. The per-kind
  handlers `_buttonField`, `_inputField` and `_selectField` become
  `ButtonField`, `InputField` and `SelectField`. Each returns
  `Extracted(fields)` or `InvalidField`. `_filter` becomes `Participates`. The
  `elements` getter becomes the method `Elements`. It returns
  `Fields(fields)`, or `TypeError(handler)` when a participating element has no
  handler. `Elements` is proved equal to the specification function
  `AllFields`, and the lemmas are stated about `AllFields`.
- **Multipart encoding** (`multipart.dfy`, module `Multipart`). `buildMessage`
  becomes the method `BuildMessage`. It builds each part with `+=`, pushes it,
  and frames the parts, following section 5.1.1 of RFC 2046 and the part
  headers of section 4.2 of RFC 7578. It is proved equal to the specification
  function `Message`. Next to it is a reader, `Decode`, that splits a body on
  the delimiter and parses each part's headers. The lemma `DecodeMessage`
  proves that `Decode(Message(fs, b), b) == Some(fs)` whenever the boundary
  and the records can be framed safely.

`text.dfy` (module `Text`) holds the string operations these parts rely on:
the ASCII part of `toUpperCase`/`toLowerCase`, `Array.prototype.join`, the
leftmost search for a delimiter, and the split on it. `wrappers.dfy` holds
`Option`. `Option` models `null` and parses that can fail.

The model follows the code where the code differs from its documented intent:

- `_filter` compares the upper-cased node name with the lower-case literal
  `"fieldset"` (complex/uploader.js:158). That comparison is always true, so
  the filter drops only disabled controls (`FilterExcludesOnlyDisabled`).
  Fieldsets are skipped later, by the lower-case test in the getter
  (complex/uploader.js:180).
- An element with no handler, such as a textarea, is not skipped. The method
  lookup `this[method]` yields `undefined`, and calling it raises a TypeError.
  The `InvalidField`-only catch does not catch it, so the whole pass aborts.
  The model gives this its own result, `TypeError`. This reading assumes the
  conditional catch clause `catch (e if e instanceof …)` at
  complex/uploader.js:183, which only SpiderMonkey, Firefox's engine, accepts;
  other engines reject the file as a syntax error. A disabled element of this
  kind is filtered out first and aborts nothing. An unknown input *type* such
  as `hidden` does signal `InvalidField` and is skipped.
- Nothing forces a field name to be non-empty. A control with an empty name
  yields a record with an empty name.
- `buildMessage` prints a file record that has no file name as
  `filename="null"`, as JavaScript string concatenation does (`FileNameText`).
  The extraction never produces such a record (`AllFieldsWellFormed`).

## Model

| member | source | states |
|---|---|---|
| `FormFields.Participates` | complex/uploader.js:157-161 | definition: `_filter` keeps a control when its upper-cased node name differs from the literal `"fieldset"` and it is not disabled |
| `FormFields.FilterExcludesOnlyDisabled` | complex/uploader.js:157-161 | `_filter` keeps a control exactly when it is not disabled; its node-name test never excludes anything, whatever the node name |
| `FormFields.ButtonField` | complex/uploader.js:56-67 | a button succeeds exactly when its value is non-empty, and then yields the one non-file record `{name, value}` with no file name; an empty value signals InvalidField |
| `FormFields.InputField` | complex/uploader.js:75-116 | InvalidField exactly for an unchecked checkbox or radio, a file input with no files, or an unknown type; checkbox, radio, text, submit and password yield the one non-file record carrying the current value, even an empty one; a file input yields one file record per chosen file |
| `FormFields.FileFields` | complex/uploader.js:99-111 | N files give exactly N records in file order; record k has `isFile`, the input's name, file k's contents as value and file k's name as `fileName` |
| `FormFields.InputTypeCaseInsensitive` | complex/uploader.js:76-78 | the type attribute is upper-cased before the switch, so its letter case never changes the outcome |
| `FormFields.Submitted` | complex/uploader.js:131-140 | definition: the options of a multiple select that are selected and not disabled, in option order |
| `FormFields.OptionFields` | complex/uploader.js:133-138 | definition: one non-file record per option, with the select's name, the option's value and no file name |
| `FormFields.SelectFields` | complex/uploader.js:124-151 | definition: a multiple select gives the records of its submitted options; a single select gives the one record `{name, value}` |
| `FormFields.SubmittedMembers` | complex/uploader.js:131-140 | an option is submitted exactly when it is one of the select's options, selected and not disabled; there are never more submitted options than options |
| `FormFields.SubmittedAppend` | complex/uploader.js:131-140 | the submitted options of a concatenation are those of each half, in option order |
| `FormFields.SelectField` | complex/uploader.js:124-151 | the loop's result is one non-file record per selected, enabled option, in option order, possibly none (a success); a single select yields exactly one record carrying its `value` |
| `FormFields.Extract` | complex/uploader.js:177-182 | definition: the handler `"_" + lower-cased node name + "Field"` that the getter calls, for a button, an input or a select |
| `FormFields.ExtractWellFormed` | complex/uploader.js:56-151 | every record any handler yields has `isFile` exactly when `fileName` is present, and carries the control's name |
| `FormFields.Collect` | complex/uploader.js:176-185 | definition: over the filtered controls in order, a fieldset is skipped, an element with no handler aborts with `TypeError("_" + lower-cased name + "Field")`, InvalidField contributes nothing, and any other control's records are concatenated after those before it |
| `FormFields.AllFields` | complex/uploader.js:166-188 | definition: `Collect` applied to the controls `_filter` keeps |
| `FormFields.Elements` | complex/uploader.js:166-188 | the getter's filter-then-concatenate loop yields exactly `AllFields(form)`: the records of the participating controls in order, or the TypeError of the first enabled element without a handler |
| `FormFields.AllFieldsAppend` | complex/uploader.js:174-185 | the pass over `a + b` is the pass over `a` followed by the pass over `b`, so records keep control order and within-control order, and an abort in `a` stops the pass |
| `FormFields.SingleControl` | complex/uploader.js:174-185 | a disabled control or a fieldset contributes nothing; an enabled element without a handler aborts with `"_" + lower-cased name + "Field"`; any other control contributes its handler's records, or nothing on InvalidField |
| `FormFields.Skipped` | complex/uploader.js:157-185 | a disabled control, a fieldset or a control that signals InvalidField can be removed from the form without changing the outcome, so the other controls' records are untouched |
| `FormFields.Kept` | complex/uploader.js:180-184 | a control whose handler succeeds puts exactly its records between those of the controls before it and those after it |
| `FormFields.AbortIff` | complex/uploader.js:177-183 | the pass fails exactly when some enabled control is an element without a handler, so an InvalidField signal never makes it fail |
| `FormFields.AllFieldsWellFormed` | complex/uploader.js:166-188 | every record the pass yields has `isFile` exactly when a file name is present |
| `FormFields.InvalidControlBetweenValidOnes` | complex/uploader.js:166-188 | a text input, an unchecked checkbox and a single select give exactly the text and select records, in form order, with no error |
| `Multipart.FileNameText` | complex/uploader.js:217 | definition: the text a file name concatenates as, which is `null` when there is none |
| `Multipart.Part` | complex/uploader.js:207-243 | definition: the part string that the `+=` steps build, for a file record and for a non-file record |
| `Multipart.Message` | complex/uploader.js:248-252 | definition: `--B` CRLF, the parts joined by `--B` CRLF, then `--B--` CRLF |
| `Multipart.BuildMessage` | complex/uploader.js:202-253 | the `+=` and `push` loop returns `Message`: `--B` CRLF, the parts joined by `--B` CRLF, then `--B--` CRLF |
| `Multipart.PartShape` | complex/uploader.js:209-243 | a non-file part is the `Content-Disposition: form-data; name="n"` line, an empty line, the value and CRLF; a file part adds `; filename="f"` and a `Content-Type: application/octet-stream` line before the empty line |
| `Multipart.EmptyMessage` | complex/uploader.js:248-250 | no records give `--B` CRLF `--B--` CRLF |
| `Multipart.UserAliceMessage` | complex/uploader.js:236-250 | the record `user=alice` under boundary `B` gives exactly `--B` CRLF, `Content-Disposition: form-data; name="user"` CRLF CRLF `alice` CRLF, then `--B--` CRLF |
| `Multipart.FilePartMessage` | complex/uploader.js:209-250 | the file record `f` with contents `DATA` and file name `a.txt` under boundary `B` gives exactly `--B` CRLF, `Content-Disposition: form-data; name="f"; filename="a.txt"` CRLF, `Content-Type: application/octet-stream` CRLF CRLF, `DATA` CRLF, then `--B--` CRLF |
| `Multipart.MessageAsJoin` | complex/uploader.js:248-250 | the body is an empty preamble, one CRLF-led frame per part (or a lone CRLF when there are none) and the closing `--` CRLF, joined by the delimiter `--B` |
| `Multipart.ParsePartRoundTrip` | complex/uploader.js:209-243 | when a name and file name contain no double quote, the `Content-Disposition` and `Content-Type` headers of a part give back its name, its file name or its absence, and its exact value |
| `Multipart.SplitMessage` | complex/uploader.js:248-250 | with a boundary that is non-empty and free of CR and LF, and a delimiter that occurs in no frame, splitting the body on `--B` gives back the preamble, the frames and the closing piece |
| `Multipart.PartCount` | complex/uploader.js:245-250 | under the same conditions a non-empty record list splits into one piece per record plus two, and piece k+1 is CRLF followed by record k's part |
| `Multipart.DecodeMessage` | complex/uploader.js:202-253 | round trip: under the same conditions, reading the body back gives exactly the records it was built from |

## Left out

- `send` (complex/uploader.js:258-278) is not modelled. It is network I/O and UI: XMLHttpRequest, the asynchronous `onreadystatechange`, `alert` and `sendAsBinary`. It also reads an undefined global `headers`.
- The shared `headers` property (complex/uploader.js:48) is not modelled. Only the transport uses it.
- `generateBoundary` (complex/uploader.js:193-195) is not modelled, because it reads the clock. The boundary is a parameter of `Message` and `BuildMessage`.
- `getAsBinary()` and the conversions of `HTMLCollection` and `options` are foreign browser calls. File contents and option lists are given sequences. The dead `getElementsByTagName("option")` result (complex/uploader.js:128) is overwritten on the next line and is not modelled.
- The `Uploader.InvalidField` error object and its inheritance from `Error` (complex/uploader.js:37-45) are modelled as the `InvalidField` result, not as an exception with a message and a stack.
- The handlers' unused `index` and `elements` arguments are not modelled.
- Only ASCII letters are case-mapped. JavaScript's `toUpperCase` and `toLowerCase` also map some non-ASCII letters: a dotless `ı` in a type upper-cases to `I`, so `"fıle"` would count as a file input. The model does not capture this.
- `Other` dispatches by constructor. An `Other` whose node name lower-cases to `button`, `input` or `select` does not occur in a DOM, so the model does not route it to those handlers.
- Values are JavaScript strings (`seq<char>`). Truncating characters to bytes happens in `sendAsBinary` and is not modelled.
- The source escapes nothing and gives no guarantee against boundary collisions. The round-trip lemmas therefore hold only under `SafeBoundary` and `Recoverable`: no double quote in names or file names, and the delimiter `--B` absent from every frame. That second condition is what section 5.1.1 of RFC 2046 asks of a boundary.
- A body with no records, `--B` CRLF `--B--` CRLF, has no body part in the RFC 2046 grammar. `Decode` reads the lone CRLF between its two delimiters as the empty list.
- Encoding is deterministic because `Message` is a function. No separate lemma states this.
