# techart/io in Dafny

A model of the core of techart/io, a PHP library of filesystem objects and streams, with proofs about it.

The library has four parts:

- **The FS facade** (`FS`). It keeps an option table and resolves permissions from it. It builds the File or Dir object for a path and hands `rm`, `mv`, `cp`, `clear_dir` and `mkdir` to those objects.
- **Filesystem objects** (`FSObject`, `File`, `Dir`). They hold a path, a lazily loaded stat and, for a File, an open stream. They also guard their magic properties and indices.
- **Directory walks** (`Query`, `DirIterator`). A cursor reads one directory listing and skips `.`, `..` and anything the query forbids.
- **Streams** (`AbstractStream`, `ResourceStream`, `Stream\Iterator`). A stream reads a resource in chunks or lines. Its iterator counts the reads that did not fail.

The operating system is an abstract filesystem. `Os.FsState` maps paths to regular files (their bytes) or directories, and keeps the entries in creation order. A stored path has no empty component and no trailing slash; the only normalisation the model applies is that a lookup drops the trailing slashes of a path naming a directory, so `./a`, `a/../b` and `a` are different keys, and `a//b` is no key at all; `readdir` reports that order, after `.` and `..`. The PHP built-ins the library calls are functions on that state, with contracts: `file_exists`, `is_dir`, `unlink`, `rmdir`, `rename`, `copy`, `mkdir`, `opendir`/`readdir`, `file_put_contents`, `chmod`, `chown`, `chgrp` and `stat`. `Os.FileSystem` is the mutable holder of that state. Every state-changing primitive keeps `FsState.Valid()`, the shape every real filesystem has, and each of them has a validity lemma. These built-ins are not part of the repository, so they have no rows below.

Five things become parameters of the model:

- the regex engine (`Queries.Matcher`);
- `realpath` (`FsObjects.Realpath`);
- whether `fopen` succeeds, and what it reads;
- whether `fclose` succeeds;
- the filesystem state that a query or iterator consults.

Modules follow the program, one per component:

| module | what it holds |
|---|---|
| `Core` | PHP values, truthiness, string casts, the library's exceptions |
| `Paths` | `rtrim`, `basename`, `dirname`, `Strings::replace`, path containment |
| `Os` | the abstract filesystem |
| `FsOptions` | the option table, permission resolution, `FS::chmod`/`chown`/`chgrp`, `FS::mkdir`'s effect |
| `Streams` | `AbstractStream` and `ResourceStream` |
| `StreamIterators` | `Stream\Iterator` |
| `Queries` | `Query` |
| `DirIterators` | `DirIterator`, `file_object_for` on values, `apply_to` |
| `Trees` | what Dir's recursive `rm`, `copy_to` and `move_to` do to the state, as functions, and the loop invariants of their foreach loops |
| `Copies` | what Dir's `copy_to` and `move_to` leave in the destination and the source, proved about the Trees functions |
| `FsObjects` | FSObject, File and Dir as one class with a `kind`; also `FS::file_object_for` and `FS::mkdir` |
| `Fs` | the rest of the facade |

Each imperative member is a method on a class or on the `FileSystem` holder. Its `ensures` ties the new state to a function of the old one, and lemmas then prove what the library promises about those functions. For example, `FsObjects.FsObject.Rm` ends in `RmTree`, and `Trees.RmTreeRemoves` proves that `RmTree` removes exactly the directory's subtree.

## Model

| member | source | states |
|---|---|---|
| Core.ToStr | src/IO/FS/Query.php:30-34 | PHP's `(string)` cast as `regexp()` applies it: strings unchanged, null and false empty, true "1", integers in decimal with a sign |
| Core.IssetOr | src/IO/FS.php:42 | `isset($a[k]) ? $a[k] : null`: the stored value when the key is present and non-null, null otherwise |
| Core.IntArg | src/IO/FS.php:171 | how `mkdir` and `chmod` read a mode as an integer: null and false read as 0, true as 1, an integer as itself, a string as its leading decimal integer after blanks and an optional sign, and a string without one fails |
| Core.LeadingDigits | src/IO/FS.php:171 | a string of decimal digits, with or without a leading minus, reads as the number it spells |
| Core.IntArgOfPrinted | src/IO/FS.php:204 | an integer printed in decimal reads back as itself |
| Core.IntArgOfStrings | src/IO/FS.php:204 | "0755" reads as 755, in decimal and not in octal; "abc" and "" fail |
| Paths.RTrimSlash | src/IO/FS/Dir.php:28-31 | `rtrim(p, '/')` is the longest prefix of p that does not end in a slash; every character it cuts is a slash |
| Paths.Basename | src/IO/FS/FSObject.php:96-97 | `basename` never contains a slash |
| Paths.SplitJoin | src/IO/FS/FSObject.php:93-97 | for a path `d/n`, `dirname` gives back `d` and `basename` gives back `n` |
| Paths.TopLevelSplit | src/IO/FS/FSObject.php:93-97 | a bare name is its own basename, and its dirname is "." |
| Paths.ReplaceChar | src/IO/FS/Query.php:45 | `Strings::replace` with a one-character search leaves a string without that character unchanged |
| Queries.GlobChar | src/IO/FS/Query.php:45 | what each character of a wildcard becomes: `.` becomes `\.`, `?` becomes `.`, `*` becomes `.*`, anything else stays |
| Queries.GlobIsTranslate | src/IO/FS/Query.php:45 | the three replacement passes, in the source's order, equal the character-by-character translation; no pass rewrites another's output |
| Queries.TranslateLength | src/IO/FS/Query.php:45 | the translation is longer than the wildcard by one for every `.` and every `*` |
| Queries.TranslatePlain | src/IO/FS/Query.php:45 | a wildcard without `.`, `?` or `*` translates to itself |
| Queries.TranslateSplits | src/IO/FS/Query.php:45 | translation distributes over concatenation, so every other character survives unchanged and in order |
| Queries.GlobSpec | src/IO/FS/Query.php:43-47 | `glob(w)` stores "{" + translation + "}"; its length is \|w\| + 2 + count('.') + count('*'); a plain w gives "{w}" |
| Queries.PropertyIsSet | src/IO/FS/Query.php:172-181 | `__isset` holds exactly for `regexp` and `recursive` |
| Queries.UnsetError | src/IO/FS/Query.php:191-200 | `__unset` always throws: Undestroyable for the two properties, Missing for every other name, naming the property |
| Queries.Query.constructor | src/IO/FS/Query.php:17-21 | a fresh Query has regexp "{.+}", recursive false and self false |
| Queries.Query.Regexp | src/IO/FS/Query.php:30-34 | stores the string form of its argument and changes no other field |
| Queries.Query.Glob | src/IO/FS/Query.php:43-47 | stores "{" + translation + "}" and changes no other field |
| Queries.Query.Recursive | src/IO/FS/Query.php:57-62 | sets `recursive` to the truthiness of its first argument and `self` to its second; regexp is unchanged |
| Queries.Query.IsRecursive | src/IO/FS/Query.php:89-92 | answers the recursion flag |
| Queries.Query.Allows | src/IO/FS/Query.php:101-108 | a directory always passes a recursive query; any other path, or any path when the query is flat, passes iff the regex matches it |
| Queries.Query.Forbids | src/IO/FS/Query.php:117-120 | a path is forbidden iff it is not a directory under a recursive query and the regex does not match it |
| Queries.Query.GetProperty | src/IO/FS/Query.php:130-139 | `__get` answers `regexp` and `recursive` and throws Missing for every other name |
| Queries.Query.SetProperty | src/IO/FS/Query.php:150-163 | `regexp` is stored as a string and `recursive` as a boolean; any other name throws Missing and changes nothing; self never changes |
| DirIterators.EntryFor | src/IO/FS.php:127-134 | `file_object_for` on values: nothing iff the path is missing, a Dir iff it is a directory, with the Dir's path slash-trimmed and the File's verbatim |
| DirIterators.EntryForStable | src/IO/FS/Dir.php:28-31 | the object for an existing path names the same entry, and rebuilding it from its own path gives the same object |
| DirIterators.Filter.NextIndex | src/IO/FS/DirIterator.php:107-121 | where the do-while of `skip_to_next` stops: every name before it is skipped, and the name there is kept |
| DirIterators.Filter.Kept | src/IO/FS/DirIterator.php:107-121 | the names a walk yields from a position are taken from what is left of the listing |
| DirIterators.KeptStep | src/IO/FS/DirIterator.php:107-121 | the yielded sequence is the name at the stop followed by what is yielded after it, or empty at the end |
| DirIterators.KeptSpec | src/IO/FS/DirIterator.php:107-121 | a name is yielded iff it occurs in the rest of the listing and is not skipped; "." and ".." are never yielded |
| DirIterators.SlotFor | src/IO/FS/DirIterator.php:113-119 | `current` holds the object for `dir/name` exactly when that path exists, and null otherwise |
| DirIterators.SkipOutcome | src/IO/FS/DirIterator.php:107-121 | after the loop stops, the iterator sits at the first kept name with the handle just past it, or is closed with `current` null; the upcoming names shrink by exactly that name |
| DirIterators.DirIterator.constructor | src/IO/FS/DirIterator.php:25-29 | no handle and no current object; a missing query defaults to a fresh Query |
| DirIterators.DirIterator.SkipToNext | src/IO/FS/DirIterator.php:107-121 | stops at the first name that is not ".", ".." or forbidden, and builds its object; at the end the handle is cleared and current is null; the upcoming sequence loses exactly the yielded name |
| DirIterators.DirIterator.Rewind | src/IO/FS/DirIterator.php:75-82 | reopens the listing and stops at its first kept name; the full filtered listing is that name followed by what is still upcoming, so two rewinds on an unchanged listing yield the same sequence |
| DirIterators.DirIterator.Next | src/IO/FS/DirIterator.php:88-91 | one `skip_to_next`; returns the new `current` |
| DirIterators.DirIterator.Key | src/IO/FS/DirIterator.php:66-69 | a key exists iff `valid()`, and it is the current object's path |
| DirIterators.DirIterator.IsValid | src/IO/FS/DirIterator.php:98-101 | `valid()` holds iff `current` is an object, neither the null before the first `rewind` nor the null after the end |
| DirIterators.DirIterator.Current | src/IO/FS/DirIterator.php:56-59 | `current()` is an object exactly when `valid()` holds, and then `key()` is that object's path; otherwise there is no key |
| DirIterators.DirIterator.HasChildren | src/IO/FS/DirIterator.php:36-39 | only a valid iterator with a recursive query has children, a flat query never does, and a valid recursive iterator has children iff its current object is a Dir |
| DirIterators.DirIterator.GetChildren | src/IO/FS/DirIterator.php:46-49 | a new iterator over the current Dir with the same Query; none when current is not a Dir |
| DirIterators.YieldedEntrySpec | src/IO/FS/DirIterator.php:66-69 | a yielded name is never "." or "..", and the key is the path `dir/name` (slash-trimmed for a directory) |
| DirIterators.WalkOf | src/IO/FS/Query.php:71-82 | flat iff not recursive; leaves-only iff recursive with a falsy self; self-first iff recursive with a truthy self |
| DirIterators.ApplyTo | src/IO/FS/Query.php:71-82 | a new iterator over the directory with this query, inside the walk WalkOf chooses |
| DirIterators.DefaultIterator | src/IO/FS/Dir.php:224-227 | a flat iterator with a fresh default Query |
| Streams.EffectiveLength | src/IO/Stream/ResourceStream.php:71-74 | `$length ? $length : default`: a null or zero length gives the default |
| Streams.WriteAt | src/IO/Stream/ResourceStream.php:35-39 | `fwrite` at the position overwrites those bytes, keeps the rest and may extend the buffer |
| Streams.LineEnd | src/IO/Stream/ResourceStream.php:83-88 | `fgets` stops after the first newline, after the length limit or at the end of the buffer |
| Streams.PropertyWriteError | src/IO/Stream/ResourceStream.php:165-174 | assigning `id` or `binary` throws ReadOnly and any other name throws Missing; unsetting (ResourceStream.php:202-211) throws the same |
| Streams.PropertyIsSet | src/IO/Stream/ResourceStream.php:183-192 | `__isset` holds exactly for the two read-only properties |
| Streams.ResourceStream.constructor | src/IO/Stream/AbstractStream.php:14 | a new stream is in text mode, at position 0 |
| Streams.ResourceStream.Eof | src/IO/Stream/ResourceStream.php:95-98 | a stream without a resource is always at its end, and `eof()` holds exactly when `read_line()` would answer null |
| Streams.ResourceStream.SetBinary | src/IO/Stream/AbstractStream.php:98-102 | stores the flag as given and changes nothing else |
| Streams.ResourceStream.SetText | src/IO/Stream/AbstractStream.php:111-115 | stores the negated flag and changes nothing else, so `text(true)` equals `binary(false)` |
| Streams.ResourceStream.Write | src/IO/Stream/ResourceStream.php:35-39 | an open stream writes at its position and advances past the data; a closed one changes nothing |
| Streams.ResourceStream.WriteLine | src/IO/Stream/ResourceStream.php:48-52 | writes exactly the data followed by "\n" |
| Streams.ResourceStream.Line | src/IO/Stream/ResourceStream.php:59-62 | the same effect as WriteLine |
| Streams.ResourceStream.ReadChunk | src/IO/Stream/ResourceStream.php:71-74 | no resource gives null; a non-positive length gives false; otherwise the next bytes, as many as the length (8192 when falsy) or up to the end |
| Streams.ResourceStream.ReadLine | src/IO/Stream/ResourceStream.php:83-88 | null when there is no resource or at eof; false when the length (1024 when falsy) is at most 1, which leaves no room for a byte; otherwise the line up to the first newline, with room for length-1 bytes |
| Streams.ResourceStream.Read | src/IO/Stream/AbstractStream.php:23-28 | a chunk iff the binary flag is truthy, a line otherwise |
| Streams.ResourceStream.Close | src/IO/Stream/ResourceStream.php:104-113 | a successful close clears the resource; a failing one throws and keeps it; closing a closed stream does nothing |
| Streams.ResourceStream.Rewind | src/IO/Stream/ResourceStream.php:119-123 | an open stream goes back to position 0 |
| Streams.ResourceStream.Load | src/IO/Stream/ResourceStream.php:130-134 | rewinds first, so an open stream returns its whole content, whatever the position was |
| Streams.ChunkOutcome | src/IO/Stream/ResourceStream.php:71-74 | a chunk is a slice of the buffer at the position; false exactly for a non-positive length on an open stream |
| Streams.LineOutcome | src/IO/Stream/ResourceStream.php:83-88 | a line is a nonempty slice of the buffer at the position and moves the position past it; null when closed or at the end; false exactly for a length of at most 1 on an open stream before the end |
| Streams.DefaultLineMakesProgress | src/IO/Stream/ResourceStream.php:83-88 | with the default length, a line read before the end returns a string and advances |
| Streams.LineShape | src/IO/Stream/ResourceStream.php:83-88 | a line holds no newline except possibly as its last byte, and it ends at the end of the data, at the length limit, or at a newline |
| StreamIterators.CountNonFalse | src/IO/Stream/Iterator.php:89-95 | the count of reads that did not return false is at most the number of reads |
| StreamIterators.CountNonFalseAll | src/IO/Stream/Iterator.php:89-95 | every read is counted iff none returned false |
| StreamIterators.FalsyDataEndsIteration | src/IO/Stream/Iterator.php:79-82 | after a read, `valid()` is false for the data "0", "", null and false, but true for "0\n" |
| StreamIterators.StreamIterator.constructor | src/IO/Stream/Iterator.php:30-33 | no data and a zero count |
| StreamIterators.StreamIterator.Key | src/IO/Stream/Iterator.php:50-53 | `key()` is the number of reads since the last rewind that did not answer false, so it never exceeds the number of reads |
| StreamIterators.StreamIterator.IsValid | src/IO/Stream/Iterator.php:79-82 | before any counted read, `valid()` is `!eof()`; afterwards it holds iff the last data is a truthy string, so a null or false read ends the iteration |
| StreamIterators.StreamIterator.ReadOnce | src/IO/Stream/Iterator.php:89-95 | one stream read; its result becomes the data; the count grows by one unless the read returned false (a null still counts) |
| StreamIterators.StreamIterator.Current | src/IO/Stream/Iterator.php:40-43 | returns cached non-null data without reading; with null data it reads exactly once, and the result and the new position are ChunkOutcome's in binary mode and LineOutcome's in text mode, at the default length |
| StreamIterators.StreamIterator.Next | src/IO/Stream/Iterator.php:59-62 | exactly one read: the new data and position are ChunkOutcome's in binary mode and LineOutcome's in text mode, at the default length; the count grows unless the read gave false |
| StreamIterators.StreamIterator.Rewind | src/IO/Stream/Iterator.php:68-72 | resets the count to 0 and rewinds the stream, and leaves the cached data as it was |
| FsOptions.Options.constructor | src/IO/FS.php:8-15 | the default table: modes 0775 and 0664, owners and groups false |
| FsOptions.Options.Update | src/IO/FS.php:24-30 | `options(a)` overwrites key by key and returns the whole table |
| FsOptions.Options.Option | src/IO/FS.php:40-47 | returns the value held before the call and writes only a non-null value |
| FsOptions.PermissionKind | src/IO/FS.php:184-191 | "dir" iff the path is a directory; with an empty path, the kind the caller passes |
| FsOptions.PermissionFor | src/IO/FS.php:184-191 | an explicit non-null value wins; otherwise the option `{kind}_{type}` |
| FsOptions.DefaultModes | src/IO/FS.php:8-15 | with the defaults, a directory resolves to mode 0775 and anything else to 0664 |
| FsOptions.DefaultsHaveNoOwnership | src/IO/FS.php:8-15 | with the defaults, owner and group resolve to falsy values for every kind |
| FsOptions.ChmodEffect | src/IO/FS.php:201-205 | a falsy resolved mode, or one PHP cannot read as an integer, means no OS call and false; otherwise `chmod` with the mode read as an integer (IntArg) |
| FsOptions.ChownEffect | src/IO/FS.php:228-232 | a falsy resolved owner means no OS call and false; otherwise `chown` |
| FsOptions.ChgrpEffect | src/IO/FS.php:242-246 | a falsy resolved group means no OS call and false; otherwise `chgrp` |
| FsOptions.DefaultOwnershipCallsAreNoops | src/IO/FS.php:228-246 | with the defaults, `chown` and `chgrp` without an argument return false and change nothing |
| FsOptions.PermissionEffectsValid | src/IO/FS.php:201-246 | the three permission calls keep the filesystem well formed |
| FsOptions.DefaultPermissions | src/IO/FS/FSObject.php:68-74 | with the defaults, `set_permission()` on an existing path only sets mode 0775 or 0664 |
| FsOptions.MkdirEffect | src/IO/FS.php:167-174 | an existing path answers success and creates nothing; a resolved directory mode PHP cannot read as an integer fails and creates nothing; otherwise `mkdir` with the mode read as an integer (IntArg); success iff the path existed or is now a directory |
| FsOptions.Chmod | src/IO/FS.php:201-205 | the state and answer are ChmodEffect's |
| FsOptions.Chown | src/IO/FS.php:228-232 | the state and answer are ChownEffect's |
| FsOptions.Chgrp | src/IO/FS.php:242-246 | the state and answer are ChgrpEffect's |
| FsObjects.FsObject.File | src/IO/FS/FSObject.php:31-34 | the path is stored verbatim, without an existence check; no stat, no stream |
| FsObjects.FsObject.Dir | src/IO/FS/Dir.php:28-31 | the stored path is the argument with trailing slashes cut, and never ends in a slash |
| FsObjects.FsObject.Chmod | src/IO/FS/FSObject.php:43-47 | clears the cached stat whatever the outcome, then has the facade's chmod effect |
| FsObjects.FsObject.Chown | src/IO/FS/FSObject.php:56-60 | clears the cached stat, then has the facade's chown effect |
| FsObjects.FsObject.Chgrp | src/IO/FS/FSObject.php:62-66 | clears the cached stat, then has the facade's chgrp effect |
| FsObjects.FsObject.SetPermission | src/IO/FS/FSObject.php:68-74 | chmod, then chown, then chgrp, in that order |
| FsObjects.FsObject.Name | src/IO/FS/FSObject.php:96-97 | `name` is the basename, which holds no slash |
| FsObjects.FsObject.DirName | src/IO/FS/FSObject.php:94-96 | `dir_name` is empty only for an empty path, "." for a path without a slash, and ends in a slash only when it is the root |
| FsObjects.FsObject.Exists | src/IO/FS/FSObject.php:76-79 | `exists()` holds iff `FS::file_object_for` would give an object for the path |
| FsObjects.FsObject.Stat | src/IO/FS/FSObject.php:101-105 | a cached stat is returned unchanged; otherwise the stat is loaded and cached, and a path that cannot be stat'ed throws |
| FsObjects.FsObject.GetProperty | src/IO/FS/FSObject.php:89-109 | `__get` answers path, dir_name/dirname, name, real_path and stat; a File (File.php:168-182) adds stream, size (false when stat fails), mime_type and content_type; a Dir (Dir.php:52-60) adds `files`; any other name throws Missing |
| FsObjects.FsObject.SetPropertyError | src/IO/FS/FSObject.php:121-133 | `__set` always throws: ReadOnly exactly for the five common properties and, on a File (File.php:194-205), stream, size, mime_type and content_type; ReadOnlyObject exactly for a Dir's `files` (Dir.php:73-81); Missing otherwise; a set property never throws Missing |
| FsObjects.FsObject.UnsetPropertyError | src/IO/FS/FSObject.php:164-176 | `__unset` always throws: Undestroyable iff `__isset` holds, Missing otherwise; File (File.php:236-243) and Dir (Dir.php:108-115) follow their own `__isset`, so an unset `stream` throws Missing and `files` is Undestroyable |
| FsObjects.PropertyMembersAgree | src/IO/FS/FSObject.php:142-154 | every set property can be read and is guarded by a read-only error; every unreadable name throws Missing on set and unset; "dirname" is readable but not set |
| FsObjects.FsObject.IsSetProperty | src/IO/FS/FSObject.php:142-154 | `__isset` holds for the five common properties; a Dir adds only `files` (Dir.php:90-98); a File adds `size`, `mime_type` and `content_type`, and `stream` only while a stream is held (File.php:214-225) |
| FsObjects.FsObject.Open | src/IO/FS/File.php:49-52 | a live stream is returned as it is; otherwise a new stream on the path is opened and stored, and a failing open throws |
| FsObjects.FsObject.Close | src/IO/FS/File.php:59-63 | drops the stream, so closing twice is closing once |
| FsObjects.FsObject.Update | src/IO/FS/File.php:88-93 | writes the data (appending under FILE_APPEND), then applies `set_permission()` |
| FsObjects.FsObject.Append | src/IO/FS/File.php:103-108 | appends the data, then applies `set_permission()` |
| FsObjects.FsObject.FileCreate | src/IO/FS/File.php:37-40 | `create()` is `update('')` |
| FsObjects.FsObject.Load | src/IO/FS/File.php:75-78 | a negative maxlen fails; otherwise `load` succeeds iff the path is a directory, or a regular file whose size is at least the offset's magnitude when the offset is negative; a directory loads as the empty string, as `file_get_contents` answers there; for a file a non-negative offset reads from that byte (nothing past the end) and a negative one from that many bytes before the end; it returns exactly maxlen bytes when that many remain, the rest of the file otherwise, and the whole rest when maxlen is falsy |
| FsObjects.FsObject.Size | src/IO/FS/File.php:173-174 | the `size` property `load` falls back on: a regular file's byte count; 0 when `@filesize` fails on a missing path |
| FsObjects.UpdateThenLoad | src/IO/FS/File.php:75-93 | after a successful `update(data, flags)`, `load()` answers `data`, or the old bytes followed by `data` when FILE_APPEND is set on an existing file |
| FsOptions.PermissionsKeepContents | src/IO/FS/FSObject.php:68-74 | `set_permission()` keeps every entry and its kind and bytes: chmod, chown and chgrp change attributes only |
| FsObjects.FsObject.FileMoveTo | src/IO/FS/File.php:117-130 | refused while a live stream is held; otherwise renames to the fixed destination; on success the path is the destination and the stat is cleared; on failure null and nothing changes |
| FsObjects.FsObject.FileCopyTo | src/IO/FS/File.php:139-146 | refused while a live stream is held; otherwise copies to the fixed destination and returns a new File there; the source path is unchanged |
| FsObjects.FsObject.Rm | src/IO/FS/Dir.php:184-194 | a Dir removes its tree as RmTree describes and answers the object; a File is unlinked (File.php:148-151) |
| FsObjects.FsObject.DirCreate | src/IO/FS/Dir.php:196-199 | `FS::mkdir(path)` with the default mode, recursively |
| FsObjects.FsObject.DirCopyTo | src/IO/FS/Dir.php:201-210 | the state CopyTree describes, so Copies.CopyTreeMirrors applies: the destination ends up a copy of the source's subtree and nothing else; answers a new Dir at the destination |
| FsObjects.FsObject.DirMoveTo | src/IO/FS/Dir.php:212-217 | the state MoveTree describes (the copy, then `rm` of the source), so Copies.MoveTreeMirrors and Copies.MoveTreeRemovesSource apply: nothing is left at the source and the destination is a copy of its old subtree; answers the copy's Dir |
| FsObjects.FsObject.OffsetGet | src/IO/FS/Dir.php:134-137 | the object for `path/name` when it exists, null otherwise |
| FsObjects.FsObject.OffsetExists | src/IO/FS/Dir.php:163-166 | `isset(dir[name])` holds iff `file_object_for(path/name)` would give an object |
| FsObjects.FsObject.IndexWriteError | src/IO/FS/Dir.php:148-154 | indexed assignment (and unset, Dir.php:176-182) always throws: ReadOnlyIndexed iff the entry exists, MissingIndexed otherwise |
| FsObjects.EqualsMissingPaths | src/IO/FS/FSObject.php:199-202 | as written, two objects on missing paths are equal, because both realpaths are false |
| FsObjects.EqualsMissingExample | src/IO/FS/FSObject.php:199-202 | a concrete instance: "x" and "y" in an empty filesystem compare equal |
| FsObjects.SameEntrySpec | src/IO/FS/FSObject.php:199-202 | the intended equality holds iff both paths exist and resolve to the same real path; it implies `equals`, and agrees with it once one side exists |
| FsObjects.FsObject.Equals | src/IO/FS/FSObject.php:199-202 | as written: only an object can be equal; two objects with the same path are equal; two objects whose paths both fail to resolve are equal too |
| FsObjects.FsObject.SameEntry | src/IO/FS/FSObject.php:199-202 | the intended equality: it implies `equals` and needs this object's path to resolve, so an object on a missing path equals nothing |
| FsObjects.Mkdir | src/IO/FS.php:167-174 | the state MkdirEffect describes; answers a Dir on success, null on failure |
| FsObjects.FileObjectFor | src/IO/FS.php:127-134 | null iff the path is missing, otherwise the File or Dir EntryFor describes |
| FsObjects.RmEach | src/IO/FS/Dir.php:189-191 | the foreach removes each yielded entry as RmEntries describes, conjoining the results |
| FsObjects.RmYielded | src/IO/FS/Dir.php:190 | one yielded object removes itself as RmObject describes |
| FsObjects.CopyEach | src/IO/FS/Dir.php:208 | the foreach copies each yielded entry as CopyEntries describes |
| FsObjects.CopyYielded | src/IO/FS/Dir.php:208 | one yielded object copies itself to `dest/name` as CopyObject describes |
| FsObjects.ObjectOf | src/IO/FS.php:127-134 | the object built for an entry has that entry's class and path, with no stat and no stream |
| Trees.RmTree | src/IO/FS/Dir.php:184-194 | a missing directory is left alone; otherwise the walk, then `rmdir`; nothing outside the directory changes |
| Trees.RmObject | src/IO/FS/Dir.php:190 | a File is unlinked and a Dir removes its tree (answering truthy); nothing outside the entry changes |
| Trees.RmEntries | src/IO/FS/Dir.php:189-192 | the foreach from a listing position keeps everything outside the directory |
| Trees.RmAt | src/IO/FS/Dir.php:189-192 | one turn of the foreach keeps everything outside the directory |
| Trees.RmTreeRemoves | src/IO/FS/Dir.php:184-194 | with a regex that matches every child, `rm` removes exactly the directory and everything inside it |
| Trees.RmObjectRemoves | src/IO/FS/Dir.php:190 | removing a yielded object succeeds and removes exactly that entry and what lies inside it |
| Trees.RmEntriesRemoves | src/IO/FS/Dir.php:189-192 | the foreach succeeds and removes exactly the entries under the listed names, with their subtrees |
| Trees.RmAtRemoves | src/IO/FS/Dir.php:189-192 | one turn removes its entry's subtree and then those of the names after it |
| Trees.DefaultSkipsOnlyDots | src/IO/FS/Query.php:17 | with a regex that matches every child, the default walk skips only "." and ".." |
| Trees.FixDestinationSpec | src/IO/FS/File.php:262-268 | a destination that is no directory is used as given; a directory gets "/" (unless it ends in one) and the basename; the result is then a child of the directory with that basename |
| Trees.CopyTree | src/IO/FS/Dir.php:201-210 | a missing source changes nothing; otherwise rm and create of the destination, then the walk into it; nothing outside the destination changes, and only paths in line with it are created (what the destination then holds is Copies.CopyTreeMirrors) |
| Trees.CopyObject | src/IO/FS/Dir.php:208 | a File is copied to its fixed destination and a Dir recursively; the change stays inside the target |
| Trees.CopyEntries | src/IO/FS/Dir.php:208 | the copying foreach changes nothing outside the destination |
| Trees.CopyAt | src/IO/FS/Dir.php:208 | one copying turn changes nothing outside the destination |
| Trees.CopyTreeSteps | src/IO/FS/Dir.php:207-208 | an existing source is copied by rm and create of the destination, followed by the foreach over the source's listing in the state that gives |
| Trees.MoveTree | src/IO/FS/Dir.php:212-217 | copy, then rm of the source; paths outside both trees keep their entries (what the two trees then hold is Copies.MoveTreeRemovesSource and Copies.MoveTreeMirrors) |
| Copies.MkdirFresh | src/IO/FS.php:171 | `mkdir(t, mode, true)` of a missing path whose directory exists succeeds and adds just `t`, with that mode |
| Copies.RecreateFresh | src/IO/FS/Dir.php:207 | `rm()->create()` of a missing target whose directory exists adds just that directory |
| Copies.RecreateEmpties | src/IO/FS/Dir.php:207 | a successful `rm()->create()` of the destination leaves it an empty directory, keeps every entry not at or below it, and adds only it and directories that contain it |
| Copies.FileCopied | src/IO/FS/File.php:139-146 | a File's `copy_to` to a fresh target succeeds and puts a regular file with the same bytes there, changing nothing else |
| Copies.CopyObjectCopies | src/IO/FS/Dir.php:208 | one yielded object copied to a fresh `dest/name` places a copy of its subtree there and changes nothing else |
| Copies.CopyTreeFresh | src/IO/FS/Dir.php:201-210 | `copy_to` of a directory to a fresh target creates it and copies the whole subtree into it, and changes nothing else |
| Copies.CopyEntriesCopies | src/IO/FS/Dir.php:208 | the copying foreach from a listing position copies exactly the entries still to be yielded and what lies below them, each to the same place under the destination |
| Copies.CopyAtCopies | src/IO/FS/Dir.php:208 | one turn copies its entry's subtree to `dest/name`, and the rest of the foreach copies the rest |
| Copies.ReadyAfterTurn | src/IO/FS/Dir.php:208 | after one entry is copied, the targets of the later names are still free |
| Copies.ComposeTurn | src/IO/FS/Dir.php:208 | one turn's copy followed by the rest of the foreach is the copy of the names from that turn |
| Copies.CopyTreeMirrors | src/IO/FS/Dir.php:201-210 | with a regex that matches every child and a successful `rm()->create()` of the destination: the destination is a directory; everything inside it copies the entry at the same place inside the source, so nothing it held before survives; every entry inside the source has its copy there, a regular file with the same bytes or a directory |
| Copies.MoveTreeRemovesSource | src/IO/FS/Dir.php:212-217 | with a regex that matches every child, nothing is left at or below the source after `move_to`, and every other entry the copy left stays |
| Copies.MoveTreeMirrors | src/IO/FS/Dir.php:212-217 | after `move_to`, the destination is the same copy of the source's old subtree as after `copy_to` |
| Fs.RmEffect | src/IO/FS.php:255-259 | false for a missing path; a directory's tree or a file is removed; no entry is ever created |
| Fs.Rm | src/IO/FS.php:255-259 | the state and answer are RmEffect's |
| Fs.RmRemovesSubtree | src/IO/FS.php:255-259 | with a regex that matches every child, `rm` of an existing path succeeds and removes exactly it and what lies inside it |
| Fs.ClearDirEffect | src/IO/FS.php:268-279 | false for a non-directory; otherwise the conjunction of every child's `rm`; the directory itself stays |
| Fs.ClearDir | src/IO/FS.php:268-279 | the state and answer are ClearDirEffect's |
| Fs.ClearDirEmpties | src/IO/FS.php:268-279 | with a regex that matches every child, `clear_dir` succeeds and removes exactly what lies inside the directory |
| Fs.Mv | src/IO/FS.php:326-330 | false (a null object) for a missing source, and nothing changes; a directory moves as MoveTree describes, so Copies.MoveTreeMirrors applies; a file is renamed to its fixed destination |
| Fs.Cp | src/IO/FS.php:340-344 | false (a null object) for a missing source, and nothing changes; a directory is copied as CopyTree describes, so Copies.CopyTreeMirrors applies; a file is copied to its fixed destination |
| Fs.MakeNestedDir | src/IO/FS.php:289-292 | `mkdir(path, mode, true)` |

## Left out

- MIME types (src/IO/FS/File.php:250-253): the `mime_type` and `content_type` properties are only named. They come from a foreign lookup.
- `File::getIterator`, `ResourceStream::getIterator` and `Dir::getIterator`: they only build iterators. The iterators themselves are modelled.
- `Dir::query`: it only calls `apply_to`, which is modelled.
- `FS::pwd`, `FS::cd` and `FS::chmod_recursive`: the process's working directory is not modelled, and `chmod_recursive` needs a recursive SPL iterator.
- The `FS::File`, `FS::Dir`, `FS::Path`, `FS::FileStream`, `FS::Stat` and `FS::Query` factories: they are one-line constructors. `Path`, `FileStream` and `Stat` are not part of this model.
- Stat details: a stat is the entry's size, kind, mode, owner and group. Its DateTime fields and the failure cases of `stat` are not modelled.
- FsObjects.FsObject.Load: `$use_include_path` and `$context` are dropped: the include path and stream contexts are not modelled, and paths are looked up as given. A negative maxlen fails as in PHP 7, which warns and returns false; PHP 8 throws a ValueError. PHP 7's truncation of a maxlen above INT_MAX is not modelled. A directory loads as "" whatever the offset; the outcome of seeking on a directory handle is left to the operating system and not modelled.
- FsObjects.FsObject.Size: a directory's size is 0 here, for the reason given for FsObjects.FsObject.Stat.
- FsObjects.FsObject.Stat: a directory's size is 0 here; the size the operating system reports for a directory is a block count the model does not track.
- FsObjects.FsObject.FileMoveTo: a File object whose path names a directory is not moved. The model's `rename` moves regular files only and answers false for a directory, so `move_to` answers null and changes nothing, where PHP's `rename()` would move the directory with its whole subtree.
- `umask` around `FS::mkdir` (src/IO/FS.php:170-172): process-wide state of the OS. Modes are stored as given.
- `realpath` and symbolic links: `realpath` is a parameter, and only `equals` reads it. Paths are compared as strings everywhere else.
- Objects passed where the source accepts a path or an object (`FS::file_object_for`, `get_permision_for`'s `obj`): the model takes paths.
- FsObjects.FsObject.DirCopyTo: requires the source and destination trees to be disjoint. When the destination lies inside the source, the PHP code recurses without end, copying the destination into itself. When the destination is the source or contains it, `rm()` of the destination deletes the source first, so the copy ends with an empty destination: `Dir('a')->copy_to('a')` empties `a`. These two cases are not modelled. When the source or the destination is a regular file, PHP's walk over it never ends (see DirIterators.DirIterator.Rewind); the model walks an empty listing there, so a regular-file source gives an empty destination directory, and a regular-file destination is left in place with nothing copied into it.
- FsObjects.FsObject.DirMoveTo: requires disjoint trees, for the reasons given for DirCopyTo. When the destination is the source or contains it, the PHP move ends with the source deleted and the destination empty, or gone when it is the source: `FS::mv('a', 'a')` deletes `a`.
- Fs.Mv: requires disjoint trees when the source is a directory, for the reasons given for DirCopyTo and DirMoveTo.
- Fs.Cp: requires disjoint trees when the source is a directory, for the reasons given for DirCopyTo.
- Trees.CopyTree: requires the source and destination trees to be disjoint, for the reasons given for DirCopyTo: a destination inside the source makes the PHP copy recurse without end, and a destination that is or contains the source is emptied.
- Trees.MoveTree: requires disjoint trees, for the reasons given for DirCopyTo and DirMoveTo: a destination that is or contains the source ends with the source deleted.
- FsObjects.FsObject.Open: the `$mode` argument (default 'rb', src/IO/Stream.php:15) is not modelled. The caller supplies the bytes the new stream starts from, at position 0, and the stream is always writable. So a stream opened with the default read-only mode still accepts `write` here, where PHP's `fwrite` on an 'rb' handle writes nothing. Append mode's start at the end of the file is not expressible. The stream's buffer is a copy: writes through it do not reach the file's bytes in the filesystem state.
- Streams.ResourceStream.Write: writes on every open stream, since no stream is read-only here (see FsObjects.FsObject.Open). On a closed stream it changes nothing. That is PHP 7's behaviour, where `fwrite(null, …)` warns and fails; PHP 8 throws a TypeError.
- Streams.ResourceStream.ReadChunk: follows PHP 7. A non-positive length answers false, and a closed stream answers null, because `fread(null, …)` warns and returns null; the source has no guard here (src/IO/Stream/ResourceStream.php:71-74). PHP 8 raises a ValueError for the length and a TypeError for the closed stream.
- Streams.ChunkOutcome: the PHP 7 answers described for Streams.ResourceStream.ReadChunk.
- Streams.ResourceStream.ReadLine: a length of at most 1 answers false, as PHP 7's `fgets` does. PHP 8 raises a ValueError for a length of 0 or less.
- Streams.LineOutcome: the PHP 7 answers described for Streams.ResourceStream.ReadLine.
- Copies.CopyTreeMirrors: compares kinds and bytes, not modes. A copied file gets the mode `copy` gives a new file, and a copied directory gets the `dir_mod` option. It assumes a destination that is no regular file. On a regular file, `rm()` of the destination Dir walks a listing that cannot be opened: in PHP that walk never ends (see DirIterators.DirIterator.Rewind), and in the model it removes nothing and `create()` then reports success on the file.
- Core.IntArg: reads a numeric string's leading decimal integer. PHP's exponent forms ("1e3" is 1000), leading-dot floats (".5" is 0) and 64-bit overflow are not modelled. A string PHP cannot read as a number is a failed call: PHP 7 warns and the built-in returns null, and PHP 8 throws a TypeError.
- DirIterators.DirIterator.Next: on an iterator whose listing is used up, the handle is already null and the model stays at the end with `current` null. PHP 7's `readdir(null)` returns null rather than false, so `skip_to_next` (src/IO/FS/DirIterator.php:107-121) leaves its loop with the name null and builds the object for `dir/`, the directory itself; it loops forever when the query forbids that path. PHP 8's `readdir(null)` throws a TypeError.
- The listing is a snapshot: `opendir` sees the directory as it is at `rewind`. Changes made during the walk affect only the objects built for later names, not which names are read.
- DirIterators.DirIterator.Rewind: a path that cannot be opened as a directory (a missing path, or a regular file) gives an empty listing here, so the walk ends at once. In PHP 7, `opendir` answers false and `rewinddir(false)` only warns (src/IO/FS/DirIterator.php:79). Then every `readdir(false)` answers null, never false, so `skip_to_next` (src/IO/FS/DirIterator.php:107-121) never sees the end. It builds the path `dir/` from the null name. When the query forbids that path, the do-while spins forever. Otherwise `current` becomes `file_object_for("dir/")`, and every `next()` yields that object again, so a foreach never ends. PHP 8 throws a TypeError at `rewinddir(false)`.
- FsObjects.FsObject.Rm: a Dir object whose path names a regular file walks an empty listing here, and `rmdir` then fails and leaves the file. In PHP the walk never ends, as described for DirIterators.DirIterator.Rewind. A Dir object on a missing path returns at once, in PHP as here.
- Trees.RmTree: the same gap as FsObjects.FsObject.Rm for a path naming a regular file.
- `Core\Arrays::update`: modelled as a key-by-key overwrite of the option table.
- The regex engine: `Regexps::match` is a function parameter. Properties of whole trees assume it matches every child path (`Trees.DefaultMatchesChildren`), as the default pattern "{.+}" does.
- `AbstractStream::format` (vsprintf) and the base `close`/`rewind`: `ResourceStream` overrides the latter two, and it is the only stream of the core.
- `ResourceStream::__get`: it only reads the `id` and `binary` fields, which the model exposes as fields.
- Streams.ResourceStream.Eof: modelled as "the position is at the end of the buffer". PHP's `feof` is a sticky flag: only a read that hits the end of the file sets it, and `rewind` clears it. So in PHP `eof()` is still false on a fresh stream over an empty file, and after a last line that ends in "\n". In that second case the next `read_line` calls `fgets` and answers false, where the model answers null.
- StreamIterators.StreamIterator.IsValid: `valid()` with no counted read is `!eof()`, and the model's `eof()` differs from PHP's as described for Streams.ResourceStream.Eof. Three consequences. (a) Over an empty file, PHP yields one element (false in text mode, "" in binary mode); the model yields none. (b) In text mode, when the last line ends in "\n", PHP's final read answers false. That false is not counted and stays cached in `data`. The model's final read answers null, which is counted. (c) So a second foreach in text mode starts in PHP with the cached false as its first element, and in the model without it.
- DirIterators.DirIterator.GetChildren: a `current` that is not a Dir gives null here. PHP would raise a TypeError.
- Queries.Query.SetProperty: PHP's `(string)` cast of arrays and objects is not modelled. Values are scalars.

## Findings

| source | as written | input that shows it | evidently intended | confidence | as-written member | corrected member |
|---|---|---|---|---|---|---|
| src/IO/FS/FSObject.php:199-202 | `equals` compares `realpath` results with `==`, and `realpath` of a missing path is false | two objects on the missing paths "x" and "y" compare equal | two objects are equal when both exist and resolve to the same real path | not executed | FsObjects.EqualsMissingPaths | FsObjects.SameEntrySpec |
