# CSharpSyntaxSample, modelled in Dafny

CSharpSyntaxSample is one annotated C# file that teaches the language's
syntax. Most of it is declarations. This project models the parts of it that
compute something:

- `MyReadonlyCollection<T>`: a generic collection. Both of its constructors
  copy their input once into a `readonly T[]` field. Its iterator then yields
  the stored elements in order (`my_readonly_collection.dfy`, module
  `ReadonlyCollection`).
- The extension methods of `MyExtensions` (`my_extensions.dfy`):
  - `WordCount` splits a string on `' '` and drops the empty entries.
  - `Add` adds two numbers through a compiled expression tree.
  - `Sum` folds `Add` over a `params` array with a `foreach` loop. Its two
    unreachable `Aggregate` forms compute the same value.
- `MyType.AreValuesTheSame` and its helper `ParseNumber` (`my_type.dfy`).

`int32.dfy` holds the range of C#'s `int` and its unchecked two's-complement
wrap-around. `Add` and `Sum` use it.

`MyReadonlyCollection<T>` is a Dafny class:
- `internalCollection` is a `const` array field. Only the constructors
  assign it.
- The ghost constant `Contents` records the elements fixed at construction.
- `Valid()` states that the array still holds them.
- `GetEnumerator` is a loop over the array that returns the yielded elements
  as a sequence.

`Sum` is a method with a loop. It is proved equal to the left fold
`Aggregate` of `Add`. That fold is proved equal to the starting value plus
the exact sum of the items, reduced to 32 bits. `WordCount` is the number of
non-empty pieces of a character-by-character model of `Split`. It is proved
equal to an independent count of the maximal runs of non-space characters.

## Model

| member | source | states |
|---|---|---|
| `ReadonlyCollection.ToArray` | CSharpSyntaxSample/Program.cs:307 | `ToArray` returns a newly allocated array that holds the input elements in order |
| `ReadonlyCollection.MyReadonlyCollection.FromParams` | CSharpSyntaxSample/Program.cs:297-303 | the `params` constructor stores a fresh copy of the arguments, in order; the invariant holds afterwards |
| `ReadonlyCollection.MyReadonlyCollection.FromEnumerable` | CSharpSyntaxSample/Program.cs:305-308 | the `IEnumerable<T>` constructor stores a fresh copy of the whole input, in order; the invariant holds afterwards |
| `ReadonlyCollection.MyReadonlyCollection.GetEnumerator` | CSharpSyntaxSample/Program.cs:310-319 | one enumeration yields exactly the elements fixed at construction: same count, same order |
| `ReadonlyCollection.EnumerateTwice` | CSharpSyntaxSample/Program.cs:294-295 | enumeration can be repeated, and two enumerations of one collection yield the same elements |
| `ReadonlyCollection.ParamsMatchesEnumerable` | CSharpSyntaxSample/Program.cs:297-308 | given the same items, the `params` constructor and the `IEnumerable<T>` constructor enumerate the same elements, which are those items |
| `ReadonlyCollection.NoArguments` | CSharpSyntaxSample/Program.cs:297-303 | the `params` constructor called with zero arguments gives a collection that enumerates to the empty sequence |
| `ReadonlyCollection.SourceWriteNotSeen` | CSharpSyntaxSample/Program.cs:297-307 | a write to the caller's array after construction does not change what the collection enumerates |
| `MyExtensions.Split` | CSharpSyntaxSample/Program.cs:168 | the split on `' '` has at least one piece, and no piece contains `' '`; joining the pieces with `' '` gives back the text |
| `MyExtensions.RemoveEmpty` | CSharpSyntaxSample/Program.cs:168 | `RemoveEmptyEntries` keeps every non-empty piece and nothing else, and the kept pieces laid end to end are the original pieces laid end to end |
| `MyExtensions.RemoveEmptySingle` | CSharpSyntaxSample/Program.cs:168 | one piece is dropped when it is empty and kept as it is otherwise |
| `MyExtensions.RemoveEmptyConcat` | CSharpSyntaxSample/Program.cs:168 | `RemoveEmptyEntries` decides piece by piece: on a concatenation it gives the concatenation of its results, so order and repeats are kept |
| `MyExtensions.SplitJoin` | CSharpSyntaxSample/Program.cs:168 | splitting the `' '`-join of space-free pieces gives back exactly those pieces, empty ones included |
| `MyExtensions.Words` | CSharpSyntaxSample/Program.cs:168 | every word is non-empty and free of `' '`; the words laid end to end are the text without its spaces |
| `MyExtensions.WordsOfJoin` | CSharpSyntaxSample/Program.cs:168 | the words of non-empty, space-free words joined by `' '` are exactly those words, in order: the entries break at the spaces |
| `MyExtensions.WordCountIsRunCount` | CSharpSyntaxSample/Program.cs:163-170 | the number of split entries left after empty ones are dropped equals the number of maximal runs of characters other than `' '` |
| `MyExtensions.WordCount` | CSharpSyntaxSample/Program.cs:163-170 | `WordCount` is the number of maximal runs of characters other than `' '`, and it is 0 exactly when the text is empty or all spaces |
| `MyExtensions.WordCountOfJoin` | CSharpSyntaxSample/Program.cs:163-170 | k non-empty, space-free words joined by single spaces give a `WordCount` of k |
| `MyExtensions.HowManyWords` | CSharpSyntaxSample/Program.cs:216-221 | `"How many words are in this line of text".WordCount()` is 9 |
| `MyExtensions.Add` | CSharpSyntaxSample/Program.cs:172-184 | `Add(a, b)` agrees with `a + b` modulo 2^32 (unchecked `int` addition), and it is exactly `a + b` when that sum fits in an `int` |
| `MyExtensions.AddTwoNumbers` | CSharpSyntaxSample/Program.cs:223-226 | `1.Add(2)` is 3 |
| `MyExtensions.AddAssociative` | CSharpSyntaxSample/Program.cs:181-183 | unchecked addition is associative even when a partial sum overflows |
| `MyExtensions.Aggregate` | CSharpSyntaxSample/Program.cs:201-205 | `Enumerable.Aggregate` folds from the left: it is the same as combining the seed with the first item and going on with the rest, in enumeration order |
| `MyExtensions.AggregateConcat` | CSharpSyntaxSample/Program.cs:205 | folding over two concatenated item lists equals folding over the second from the result of the first |
| `MyExtensions.AggregateAddIsWrappedSum` | CSharpSyntaxSample/Program.cs:201-205 | `items.Aggregate(a, Add)` is `a` plus the exact sum of the items, reduced to a 32-bit `int` |
| `MyExtensions.AggregateFormsAgree` | CSharpSyntaxSample/Program.cs:201-205 | the lambda form `(current, value) => Add(current, value)` and the method-group form `Add` compute the same fold |
| `MyExtensions.Sum` | CSharpSyntaxSample/Program.cs:186-197 | the `foreach` loop computes the left fold `items.Aggregate(a, Add)`, which is `a` plus the sum of the items with wrap-around; it is exact when that total fits, and it is `a` when there are no items |
| `MyExtensions.AddManyNumbers` | CSharpSyntaxSample/Program.cs:235-239 | `1.Sum(2, 3, 4, 5, 6, 7, 8, 9)` is 45 |
| `MyType.ParseNumber` | CSharpSyntaxSample/Program.cs:124-136 | a text parses exactly when it is an optional sign followed by at least one digit and the number it denotes fits in an `int`; the parsed value is that number; a larger number gives null |
| `MyType.ParseNumberExamples` | CSharpSyntaxSample/Program.cs:131-133 | `"+007"` parses to 7, `"-0"` to 0 and `"-12"` to -12 |
| `MyType.ParseNumberOverflow` | CSharpSyntaxSample/Program.cs:131-135 | `"4294967297"` and `"-4294967297"` overflow an `int` and give null |
| `MyType.ParseFormatRoundTrip` | CSharpSyntaxSample/Program.cs:124-136 | every `int`, written in decimal, parses back to itself, including `int.MinValue` |
| `MyType.ParseNumberRejects` | CSharpSyntaxSample/Program.cs:131-135 | the empty text, a lone sign, and a text with a non-digit after the first character all give null |
| `MyType.AreValuesTheSame` | CSharpSyntaxSample/Program.cs:108-120 | false when `b` does not parse; otherwise true exactly when the parsed value equals `a` |
| `MyType.AreValuesTheSameOnFormat` | CSharpSyntaxSample/Program.cs:108-120 | compared with the decimal text of `n`, `a` is the same exactly when `a == n` |

## Left out

- `Program.Main` (CSharpSyntaxSample/Program.cs:11-70): it only declares and initialises variables.
- `MyType.GetRandomNumber` and `GetRandomNumberAsText`: they use `System.Random`, `double` and `ToString`. Those are randomness, floating point and library calls.
- `MyStruct`, `MyEnum`, `IMyInterface`, and the `MyType` constructors and `Number` property: they only store and return fields.
- The non-generic `IEnumerable.GetEnumerator`: it only delegates to the generic one.
- MyType.ParseNumber: `int.TryParse` is a library call. The model uses a simplified decimal parser in its place. It accepts an optional `-` or `+`, then one or more ASCII digits, and it checks the `int` range. It does not accept the surrounding whitespace that `int.TryParse` allows. It does not follow the culture's sign symbols.
- MyExtensions.Add: modelled only at `T = int`. `Sum` is too. Other numeric types that meet the constraints (`long`, `double`, `decimal`, …) are not modelled. The expression-tree compilation is modelled only by the arithmetic it produces.
- ReadonlyCollection.MyReadonlyCollection.GetEnumerator: returns the whole enumeration at once. The C# iterator yields one element per `MoveNext`. The interleaving of a lazy enumeration with other work is not modelled.
- ReadonlyCollection.MyReadonlyCollection.FromEnumerable: an `IEnumerable<T>` is modelled as a finite sequence. Infinite sources are not modelled, and neither are sources whose enumeration has side effects.
- Null arguments: a `null` string makes `WordCount` throw, and a `null` source makes the constructors throw `ArgumentNullException`. A `null` `items` array makes the `foreach` in `Sum` throw `NullReferenceException`. `AreValuesTheSame(a, null)` returns false, because `int.TryParse` returns false for a `null` text. Dafny's strings and non-null array types cannot be null, so none of these cases can arise in the model.
- Privacy: the C# field is `private`. Dafny has no private fields, so other code could reach the array. The invariant `Valid()` states what privacy guarantees in C#, and `GetEnumerator` requires it.
