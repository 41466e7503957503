# CUBRID locale compiler callbacks and loaddb front end

A Dafny model of two text-handling parts of CUBRID.

The first part is the LDML locale compiler in `src/base/locale_support.c`. It covers:
- the callbacks that accumulate character data and read number symbols;
- the `validSubLocales` test and the whitespace token popper;
- the hex spelling of a digest;
- the shared-data registry of the generator;
- the calendar parse-order sort;
- the collation-tailoring state kept between a `<reset>` and its rules;
- the growth of the two tailoring-rule arrays.

The second part is the front end of the `loaddb` utility in `src/loaddb/load_db.c`. It covers:
- collecting and validating the arguments;
- the `file:line` start-line suffix;
- the delimiter tokenizer;
- the `[name](type)(order)(storage_order)(S|I)` attribute meta check;
- the restart skip and the commit rule of statement execution;
- the choice between the server data file and the client data file.

Modules:

| file | module | contents |
|---|---|---|
| common.dfy | `CText` | `Option`, the C character classes, decimal digits |
| locale_data.dfy | `LocaleData` | the `LOCALE_DATA` fields in use, `handle_data`, `clear_data_buffer`, `end_number_symbol` |
| locale_tokens.dfy | `LocaleTokens` | `start_collations`, `str_pop_token` |
| locale_hash.dfy | `LocaleHash` | `hash_to_string` |
| locale_shared.dfy | `LocaleShared` | `locale_check_and_set_shared_data` |
| locale_parse_order.dfy | `LocaleParseOrder` | `comp_func_parse_order_index`, `locale_make_calendar_parse_order` |
| locale_collation.dfy | `LocaleCollation` | reset, logical position, end of rule, rule-array growth |
| loaddb_meta.dfy | `LoaddbMeta` | `ldr_get_token`, `ldr_compare_attribute_with_meta` |
| loaddb_args.dfy | `LoaddbArgs` | `get_loaddb_args`, `ldr_validate_object_file`, `ldr_check_file_name_and_line_no`, `load_object_file` |
| loaddb_exec.dfy | `LoaddbExec` | restart skip, commit rule and recorded start line of `ldr_exec_query_from_file` |

Modelling conventions:
- A C string is the `seq<char>` of its characters before the terminator.
- A pointer into a string is a position, and NULL is `None`.
- `char_isspace` and `char_isdigit` are not part of this model. `CText.IsSpace` assumes the six C whitespace characters (blank, tab, newline, vertical tab, form feed, carriage return), and `CText.IsDigit` assumes '0' to '9'.
- Each callback is a pure function from the old record to a status and the new record.
- Constants that live in headers not part of this model are parameters: `LOC_DATA_BUFF_SIZE` (`bufferSize`), `COLL_NAME_SIZE` (`nameSize`), `LOC_DATA_TAILOR_RULES_COUNT_GROW` (`grow`) and `LOC_DATA_COLL_CUBRID_TAILOR_COUNT_GROW` (`cubGrow`), and the calendar sizes `CAL_MONTH_COUNT`, `CAL_DAY_COUNT` and `CAL_AM_PM_COUNT` (`monthCount`, `dayCount`, `amPmCount`).
- Calls into the database are parameters too: the server-side load result, and the statements a run executed with their parser end lines.

The code and the natural reading of it differ in a few places. The model follows the code:
- **Periodic commit (load_db.c:928-929).** The rule tests `periodic_commit` for being nonzero, not positive. A negative period therefore commits as often as its absolute value does (`LoaddbExec.NegativePeriodCommits`). Commit messages, however, are only turned on for a positive period (load_db.c:983).
- **Empty fields in `start_collations`.** The fields are cut at every single blank, so two adjacent blanks delimit an empty field. An empty locale name matches such a list (`LocaleTokens.EmptyNameMatchesDoubleBlank`). For non-empty names the test agrees with the tokens `str_pop_token` yields (`LocaleTokens.SubLocaleMatchesToken`).
- **`name:` with no digits.** The name is cut, and the start line is `atoi("")`, which is 0.
- **Schema-only arguments.** An argument set with only a schema or index file passes validation with an empty data file name (`LoaddbArgs.SchemaOnlyHasNoDataFile`). The code as written then reaches object loading anyway: in client/server mode `ldr_server_load` (load_db.c:705) calls `load_object_file` (load_db.c:1010) unconditionally, and with no server data file that passes the empty name to `split` (load_db.c:1156), whose preceding comment assumes the file exists. What `split` does with an empty name is not part of this model.

## Model

| member | source | states |
|---|---|---|
| LocaleData.InitData | src/base/locale_support.c:4046-4060 | a fresh record has an empty data buffer, ',' as decimal and '.' as group symbol, and the given locale name |
| LocaleData.HandleData | src/base/locale_support.c:3281-3292 | a chunk is accepted iff buffer plus chunk stay below the buffer size; then the buffer is old content followed by the chunk and the record stays valid; otherwise -1 and the record is unchanged |
| LocaleData.ClearDataBuffer | src/base/locale_support.c:3324-3334 | the buffer becomes empty and nothing else in the record changes |
| LocaleData.HandleDataConcat | src/base/locale_support.c:3281-3292 | two chunks in a row are accepted iff their concatenation is, and they leave the same buffer |
| LocaleData.ClearThenHandle | src/base/locale_support.c:3281-3292 | after a clear, a chunk is accepted iff it is shorter than the buffer size, and the buffer is then exactly that chunk |
| LocaleData.EndNumberSymbol | src/base/locale_support.c:1535-1552 | succeeds iff the data is one character in [0x20, 0x80); "decimal" sets the decimal symbol, any other element sets the group symbol; on failure -1 and the record is unchanged |
| LocaleData.DecimalSymbolRoundTrip | src/base/locale_support.c:1535-1552 | a printable ASCII character fed into a cleared buffer becomes exactly the decimal symbol |
| LocaleData.TwoCharsRejected | src/base/locale_support.c:1535-1552 | two characters of data are refused whatever the element |
| LocaleTokens.StartCollations | src/base/locale_support.c:1647-1694 | returns 0 iff the attribute is present and the locale name is one of its blank-separated fields; 1 otherwise |
| LocaleTokens.StrPopToken | src/base/locale_support.c:5492-5525 | skips leading whitespace and returns the maximal following run of non-whitespace and the position just after it; both are NULL iff only whitespace remains |
| LocaleTokens.PopTokenRoundTrip | src/base/locale_support.c:5492-5525 | blanks, then a word, then a blank or the end, pop back as exactly that word |
| LocaleTokens.TokensArePopped | src/base/locale_support.c:5492-5525 | the token list is what successive pops return, each starting where the previous stopped |
| LocaleTokens.TokensAreNonEmptyFields | src/base/locale_support.c:5492-5525 | the popped tokens are exactly the non-empty blank-separated fields, in order |
| LocaleTokens.SubLocaleMatchesToken | src/base/locale_support.c:1647-1694 | a non-empty locale name is one of the fields iff it is one of the popped tokens |
| LocaleTokens.EmptyNameMatchesDoubleBlank | src/base/locale_support.c:1658-1685 | two adjacent blanks produce an empty field, which an empty locale name matches |
| LocaleHash.HashToString | src/base/locale_support.c:7070-7084 | 16 bytes become 32 lowercase hex digits, high nibble first for each byte, followed by a terminator at index 32 |
| LocaleHash.HashToStringRoundTrip | src/base/locale_support.c:7070-7084 | the spelling is lowercase hex and reads back as the digest it came from |
| LocaleShared.CheckAndSetAsWritten | src/base/locale_support.c:6470-6503 | reports shared iff the full (type, key) pair is registered, and then leaves the registry unchanged; otherwise appends the pair with its key truncated to the array size |
| LocaleShared.Reserve | src/base/locale_support.c:6484-6495 | the entries are kept, and the array grows by 32 slots exactly when it is full, so there is then room for one more |
| LocaleShared.LongKeyNeverShared | src/base/locale_support.c:6474-6501 | a key of `COLL_NAME_SIZE` characters is never found again, and each call appends another entry |
| LocaleShared.CheckAndSet | src/base/locale_support.c:6470-6503 | corrected lookup on the stored key: reports shared iff the stored pair is registered, leaving the registry unchanged; otherwise appends exactly that pair |
| LocaleShared.CheckAndSetIdempotent | src/base/locale_support.c:6470-6503 | a second registration of the same pair reports shared and changes nothing |
| LocaleShared.CheckAndSetKeepsDistinct | src/base/locale_support.c:6470-6503 | the registry never holds the same entry twice |
| LocaleShared.ShortKeysAgree | src/base/locale_support.c:6470-6503 | for keys that fit the array, the code as written and the corrected registry behave identically |
| LocaleParseOrder.StrCmp | src/base/locale_support.c:3975-3982 | the sign of `strcmp` is 0 iff the strings are equal, and negative iff the first precedes the second lexicographically, a proper prefix first |
| LocaleParseOrder.CompareParseIndex | src/base/locale_support.c:3975-3982 | negative iff the first name is greater by `strcmp`, or the names are equal and the first index is smaller; 0 iff the indexes are equal |
| LocaleParseOrder.BeforeTotal | src/base/locale_support.c:3975-3982 | for two different indexes exactly one goes first |
| LocaleParseOrder.BeforeTransitive | src/base/locale_support.c:3975-3982 | the order is transitive |
| LocaleParseOrder.MakeParseOrder | src/base/locale_support.c:3997-4035 | each parse order has one entry per name, is sorted by the comparison, and is a permutation of 0 .. n-1 |
| LocaleParseOrder.ParseOrderIsPermutation | src/base/locale_support.c:3997-4035 | every index 0 .. n-1 appears in the parse order |
| LocaleParseOrder.LongerNameFirst | src/base/locale_support.c:3975-3982 | a name that has another name as a proper prefix is tried before it |
| LocaleParseOrder.ParseOrderDeterminate | src/base/locale_support.c:3997-4035 | any sorted permutation equals the computed order, whatever sort the C library uses |
| LocaleParseOrder.MakeCalendarParseOrder | src/base/locale_support.c:3994-4035 | for name lists of the sizes given (months, days, AM/PM), each of the five lists gets a parse order of its own size that is sorted by the comparison and is a permutation of its indexes |
| LocaleCollation.StartCollationReset | src/base/locale_support.c:1923-1969 | anchor, position and level are reset; the call aborts iff `before` holds an unknown level; "primary", "secondary", "tertiary" and "quaternary" each set their own level, with the BEFORE direction; without `before` the level stays undefined and the direction AFTER; nothing else changes |
| LocaleCollation.EndCollationLogicalPos | src/base/locale_support.c:2819-2885 | an element naming a logical position selects exactly that position and changes nothing else; any other name is an error and leaves the record unchanged |
| LocaleCollation.LogicalPosRoundTrip | src/base/locale_support.c:2819-2885 | every logical position is selected by its own element name |
| LocaleCollation.CommonCollationEndRule | src/base/locale_support.c:7490-7523 | a pending level that differs from the rule's level is an error; otherwise the level is cleared, the rule takes the current direction and position, the direction returns to AFTER, and a single-character rule becomes the buffer anchor and reference |
| LocaleCollation.BeforeOnlyFirstRule | src/base/locale_support.c:7490-7523 | after a reset with `before`, the first rule is placed BEFORE and the next one AFTER |
| LocaleCollation.ResetLevelMismatch | src/base/locale_support.c:7490-7501 | after a primary reset, a first rule of another level is refused |
| LocaleCollation.NewCollationRule | src/base/locale_support.c:3384-3400 | the returned slot lies inside the allocated array; the capacity grows by the step exactly when `count + 1 >= max`, and is unchanged otherwise |
| LocaleCollation.AddCollationRule | src/base/locale_support.c:3384-3400 | adding a rule keeps the array valid and increases the count by one |
| LocaleCollation.NewCollationCubridRuleAsWritten | src/base/locale_support.c:3458-3471 | when nearly full, the allocation becomes the other array's capacity plus the step, while the recorded capacity grows by the step |
| LocaleCollation.CubridRuleOverflow | src/base/locale_support.c:3458-3474 | in a collation with no ordinary rules, CUBRID rule number step+1 is written outside the allocation |
| LocaleCollation.NewCollationCubridRule | src/base/locale_support.c:3458-3474 | corrected growth: the returned slot lies inside the allocation, the recorded capacity is the allocated one, and it grows by the step exactly when `count + 1 >= max` |
| LocaleCollation.AddCubridRules | src/base/locale_support.c:3458-3474 | with the corrected growth, any number of CUBRID rules are written inside the allocation |
| LoaddbMeta.GetToken | src/loaddb/load_db.c:224-256 | NULL in gives NULL and a NULL token; with no end delimiter the result is NULL; otherwise the result is just past the first end delimiter, and the token is the text between a leading start delimiter and it, or NULL without a start delimiter |
| LoaddbMeta.GetTokenRoundTrip | src/loaddb/load_db.c:224-256 | a delimited token is cut out again and the position after it returned |
| LoaddbMeta.ParseIntRoundTrip | src/loaddb/load_db.c:286-287 | the decimal spelling of any 32-bit integer parses back to it |
| LoaddbMeta.SharedFlag | src/loaddb/load_db.c:287-294 | the flag token is valid iff it starts with S or I, and S means shared |
| LoaddbMeta.MetaTokens | src/loaddb/load_db.c:274-279 | the five tokens of a meta, in order; a name token implies the meta starts with '[' and the token holds no ']', and the four parenthesised tokens hold no ')' |
| LoaddbMeta.FiveTokens | src/loaddb/load_db.c:274-279 | a name in brackets followed by four parenthesised tokens is cut back into exactly those five tokens |
| LoaddbMeta.FourTokens | src/loaddb/load_db.c:274-279 | with only four bracketed tokens, the fifth token is NULL |
| LoaddbMeta.DecodeMeta | src/loaddb/load_db.c:274-294 | a meta is obtained iff all five tokens are present, the middle three parse as integers and the flag is S or I |
| LoaddbMeta.ParseFormatRoundTrip | src/loaddb/load_db.c:274-294 | parsing the meta string written for a meta gives back that meta |
| LoaddbMeta.CompareTokensAsWritten | src/loaddb/load_db.c:280-288 | the flag token is read through NULL iff the other four are present, the three integers parse and the flag is missing |
| LoaddbMeta.CompareAttributeWithMetaAsWritten | src/loaddb/load_db.c:270-330 | the code as written reads through NULL exactly for a non-NULL meta with four good tokens and no flag token |
| LoaddbMeta.MissingFlagDereferencesNull | src/loaddb/load_db.c:280-287 | a well-formed meta without its flag token reaches the NULL read, for any attribute |
| LoaddbMeta.CompareTokens | src/loaddb/load_db.c:280-330 | corrected comparison: NO_ERROR iff the tokens decode to a meta that agrees with the attribute in type, order, storage order, shared flag and name |
| LoaddbMeta.CompareAttributeWithMeta | src/loaddb/load_db.c:270-330 | NO_ERROR iff meta and attribute are non-NULL and the meta parses and agrees with the attribute; ER_FAILED otherwise |
| LoaddbMeta.AsWrittenAgreesWhenItReturns | src/loaddb/load_db.c:270-330 | wherever the code as written returns, it returns what the corrected comparison returns |
| LoaddbMeta.MetaOfAttributeAccepted | src/loaddb/load_db.c:270-330 | the meta written for an attribute is accepted for that attribute and no other |
| LoaddbArgs.GetLoaddbArgs | src/loaddb/load_db.c:956-995 | absent string options become empty strings, and commit messages are on iff the commit period is positive |
| LoaddbArgs.ValidateObjectFile | src/loaddb/load_db.c:131-164 | fails iff the volume is empty, or nothing at all is to be loaded, or input and data files are both given and differ; on success the data file defaults to the input file |
| LoaddbArgs.ValidateIdempotent | src/loaddb/load_db.c:131-164 | arguments that pass validation pass again unchanged |
| LoaddbArgs.ValidatedInputIsObjectFile | src/loaddb/load_db.c:156-161 | after validation an input file given on the command line is the data file |
| LoaddbArgs.FirstColon | src/loaddb/load_db.c:179-181 | the first ':' of a name, if any |
| LoaddbArgs.SplitStartLine | src/loaddb/load_db.c:176-218 | when the name is cut, what remains is the text before its first ':', everything after that ':' is digits, and the start line is their value; when it is kept, the start line is kept and the text after the first ':' (if any) is not all digits |
| LoaddbArgs.SplitStartLineRoundTrip | src/loaddb/load_db.c:176-218 | for a name without ':', `name:N` splits back into the name and N (a name holding ':' does not: see `RestartHintWithColonNotReadBack`) |
| LoaddbArgs.SplitStartLineNoColon | src/loaddb/load_db.c:176-218 | a name without ':' is left alone |
| LoaddbArgs.CheckFileNameAndLineNo | src/loaddb/load_db.c:172-218 | the schema and index names are each split with their own start line, empty names are left alone, and nothing else changes |
| LoaddbArgs.RestartHintWithColonNotReadBack | src/loaddb/load_db.c:179-181 | for a file name holding ':', the restart hint is kept whole as the file name, which differs from the file, and the start line stays 1 |
| LoaddbArgs.SplitAtLastColon | src/loaddb/load_db.c:176-218 | corrected rule: the name is cut at a ':' followed only by digits, with those digits' value; it is kept, with the start line, exactly when no ':' is followed only by digits |
| LoaddbArgs.SplitAtLastColonRoundTrip | src/loaddb/load_db.c:665-666 | under the corrected rule, `name:N` splits back into the name and N for every name, ':' included |
| LoaddbArgs.RestartHintRoundTrip | src/loaddb/load_db.c:665-666 | for a file name without ':', the `-s file:N` restart hint is read back as the file and line N |
| LoaddbArgs.LoadObjectFile | src/loaddb/load_db.c:1104-1156 | a server file is tried first: success is final, an unknown file falls back to the client file when there is one, and any other error is returned with its code (the code itself is whatever the server reported, unconstrained here); with no server file the client file is split |
| LoaddbArgs.ClientSplitHasFile | src/loaddb/load_db.c:1104-1156 | after validation of arguments naming a file, the client split never gets an empty file name |
| LoaddbArgs.SchemaOnlyHasNoDataFile | src/loaddb/load_db.c:131-164 | schema-only arguments pass validation, and `load_object_file` then routes their empty data file name to the client split |
| LoaddbExec.SkipLines | src/loaddb/load_db.c:829-849 | for a start line above 1, the skip stops just after the (start_line-1)-th newline, or fails at the end of the file |
| LoaddbExec.AfterLinesSpec | src/loaddb/load_db.c:829-849 | the skip fails iff the file has fewer newlines than lines to skip; otherwise it stops just after a newline with exactly that many newlines before it |
| LoaddbExec.CRem | src/loaddb/load_db.c:929 | C's `%`: the remainder differs from the dividend by a multiple of the divisor, is smaller in magnitude than the divisor and takes the sign of the dividend |
| LoaddbExec.NegativePeriodCommits | src/loaddb/load_db.c:928-929 | a negative commit period commits like its absolute value |
| LoaddbExec.Step | src/loaddb/load_db.c:919-935 | each executed statement is counted; COMMIT WORK, or a count that the nonzero period divides, commits and records the line after the statement |
| LoaddbExec.Run | src/loaddb/load_db.c:864-936 | the statement loop counts every executed statement, commits at most once per statement, and ends with the parser line of the last statement (1 when there was none) |
| LoaddbExec.RunRecordsLastCommit | src/loaddb/load_db.c:928-935 | the recorded start line is the one after the last committed statement, or the initial one when nothing was committed |
| LoaddbExec.PeriodicCommitCount | src/loaddb/load_db.c:928-935 | with a positive period and no COMMIT WORK, n statements commit n / period times |
| LoaddbExec.ExecQueryFromFileAsWritten | src/loaddb/load_db.c:818-951 | the start line is unreachable iff the file has fewer than start_line-1 newlines; otherwise every statement is counted; after a failure the recorded start line is the parser line after the last committed statement (934), or the original start line when nothing was committed; on success it is the parser line after the last statement (947); both lines are counted from where reading resumed |
| LoaddbExec.RestartLineAsWrittenRepeatsCommitted | src/loaddb/load_db.c:928-947 | restarting at line 3 and committing line 3, the code as written records line 2, which repeats a committed statement; the corrected line 4 does not |
| LoaddbExec.ExecQueryFromFile | src/loaddb/load_db.c:818-951 | corrected: the same, with the recorded start line counted from the top of the file: after a failure it is the file line after the last committed statement, or the original start line when nothing was committed; on success it is the file line after the last statement |
| LoaddbExec.RestartResumesAfterCommit | src/loaddb/load_db.c:829-849 | restarting from the corrected recorded line resumes exactly after the committed statement |
| CText.DigitsRoundTrip | src/loaddb/load_db.c:183-192 | the decimal spelling of a number reads back as that number |

## Left out

- LoaddbArgs.SplitStartLineRoundTrip: holds only for names without ':', because the code cuts at the first ':' (see Findings).
- LoaddbArgs.RestartHintRoundTrip: holds only for file names without ':', for the same reason; `RestartHintWithColonNotReadBack` states what happens otherwise.
- `src/replication/replication_slave_node.cpp`: it only wires up stream, file, consumer and receiver objects and threads whose code is not part of this model.
- The XML driver (`xml_init_parser`, `xml_parse`), the `ldml_elements` table and the opening of LDML files: I/O through a foreign parser. Each callback is modelled on the data the driver would hand it.
- The `locale_save_*_to_C_file` routines, the `PRINT_*` macros and the `dump_*` and `print_debug_*` routines: formatted output only. The message printing of `handle_data` and of the loader is left out for the same reason.
- MD5 and struct checksums (`locale_compute_coll_checksum`, `locale_compute_locale_checksum`): they depend on memory layout and a foreign hash. Only the hex spelling of a digest is modelled.
- Unicode and UCA processing, and console conversion data: foreign code and file I/O.
- Database sessions, parsing, compiling and executing statements, login, the server load loop and signal handling in `load_db.c`. These are remote calls and concurrency. Their outcomes are parameters: the server load result, the executed statements with their end lines, and the failure flag.
- `realloc` failures in the rule arrays and the shared-data registry: allocation is assumed to succeed. The capacity arithmetic is modelled; memory contents are not.
- LocaleData.HandleData: the 64-byte debug message that is built when verbose is on is not modelled.
- LoaddbMeta.ParseInt: `parse_int` is in `porting.c`, which is not part of this model. It is taken to accept an optional sign followed by one or more decimal digits within the 32-bit range. The real `parse_int` is built on `strtol`, which also skips leading whitespace; the model rejects it, so `LoaddbMeta.ParseIntRoundTrip` covers only the spelling the schema dump writes, not everything `parse_int` accepts.
- LoaddbArgs.SplitStartLine: `atoi` overflow on a very long digit run is not modelled, so the start line is the unbounded value of the digits.
- LoaddbArgs.CheckFileNameAndLineNo: writing the terminator at the ':' cuts the name the rest of the loader opens as a C string. The length of the `std::string` that holds it is not modelled.
- LocaleHash.HashToString: the digest is taken as bytes 0..255. The signed `char` of the source gives the same nibbles after masking.
- LocaleTokens.StrPopToken: the token is copied into `malloc`ed memory, and a failed allocation returns `ER_LOC_INIT` (locale_support.c:5508-5512); the model has no such failure path.
- The error returns of `handle_data`, `end_collation_logical_pos` and `common_collation_end_rule` also set `pd->xml_error` to `XML_CUB_ERR_PARSER` (locale_support.c:3283, 2879, 7495), which makes the XML driver stop. The parser record is not modelled; only the -1 status is.
- LoaddbExec.ExecQueryFromFile: an interrupt, a parse error and an execution error all end the run as one failure flag. The error line message of load_db.c:896 is not modelled.
- The verbose trace of `common_collation_end_rule` and the other callbacks: output only.

## Findings

| source | as written | input that shows it | evidently intended | confidence | as-written member | corrected member |
|---|---|---|---|---|---|---|
| src/base/locale_support.c:3461-3470 | the CUBRID rule array is reallocated to `max_rules + GROW` elements, the capacity of the ordinary rule array, while `cub_max_rules` grows by `GROW` | a collation with only CUBRID rules: after GROW rules the array is grown to GROW elements but believed to hold 2*GROW, so rule GROW+1 is written past its end | size the `realloc` from `cub_max_rules` | high, not executed | LocaleCollation.CubridRuleOverflow | LocaleCollation.AddCubridRules |
| src/base/locale_support.c:6474-6501 | the key is compared in full with `strcmp`, but stored truncated to `COLL_NAME_SIZE - 1` characters | a key of `COLL_NAME_SIZE` characters registered twice: both calls report it as new and the registry holds two entries. The defect is latent: the function is static, and its callers pass the literals "ascii" and "unicode" (4427-4454), "normalization" (4477) and a collation name already cut to `COLL_NAME_SIZE - 1` characters (1734-1735, passed at 4538), so no current call reaches it | compare against the stored, truncated key | medium (latent), not executed | LocaleShared.LongKeyNeverShared | LocaleShared.CheckAndSetIdempotent |
| src/loaddb/load_db.c:280-287 | the NULL test covers the first four tokens only, and `shared_str[0]` is read afterwards | the meta `[a](1)(2)(3)`, with no flag token, for any attribute | test `shared_str` for NULL like the other tokens and fail | high, not executed | LoaddbMeta.MissingFlagDereferencesNull | LoaddbMeta.MetaOfAttributeAccepted |
| src/loaddb/load_db.c:934, 947 | the restart line is set to `parser_end_line_no + 1`, a line counted from where reading resumed after the skip | a four-line file restarted at line 3, with the statement on line 3 committed and the next one failing: line 2 is recorded, so a restart there executes the already committed statements on lines 2 and 3 again | add the lines skipped at the start (`start_line - 1`) | medium (assumes the parser numbers lines from where the session starts reading, as the error report at load_db.c:896 suggests), not executed | LoaddbExec.RestartLineAsWrittenRepeatsCommitted | LoaddbExec.RestartResumesAfterCommit |
| src/loaddb/load_db.c:179-181 | the `file:line` suffix is found with `strchr`, at the first ':' of the name, while the restart hint at load_db.c:665-666 appends `:line` to the whole file name | the schema file `C:\db\schema` fails at line 5: the hint `C:\db\schema:5` is kept whole as the file name, so the restart tries to open a file named `C:\db\schema:5` and, unless one exists, fails with the bad-input-file error (load_db.c:547-553) without executing any of the schema | look for the suffix at the last ':' | medium (file names with ':', such as drive letters, are not excluded anywhere in the shown code), not executed | LoaddbArgs.RestartHintWithColonNotReadBack | LoaddbArgs.SplitAtLastColonRoundTrip |
