# inventariopatito — a Dafny model of its core

inventariopatito is a small PHP classroom application. It keeps a student register
with grades and a hardware catalogue backed by the PHP session. This project models
its pure logic in Dafny and proves properties about it:

- the academic calculator: mean, letter grade, pass test, statistics, and the grade
  still needed to pass;
- the student record and what is derived from it: full name, average, the
  `toArray` form and the report;
- the two repositories. The student repository is a seeded fixture store with
  filters, a sort and statistics. The hardware repository holds id-keyed items with
  auto-increment and a session snapshot;
- the hardware items as a tagged union (processor or graphics card);
- the field validators and the string helpers;
- the two enumerations, student status and user role;
- the acceptance rules of the two entry forms.

Grades and prices are exact `real`s. Strings are sequences of Unicode scalar values.
`strlen` is their UTF-8 byte count. A PHP array with integer keys is an
insertion-ordered list of key/value entries (`PhpArray`). Each module follows one
source file:

| module | source |
|---|---|
| `Text` | PHP string built-ins the core calls (`trim`, `htmlspecialchars`, `explode`, `sprintf('%0Nd')`, …) |
| `AcademicCalculator`, `Sorting` | src/Services/AcademicCalculator.php (`Sorting` is `sort`/`usort`) |
| `Status`, `Roles` | src/Enums/StudentStatus.php, src/Enums/UserRole.php |
| `StudentModel` | src/Models/Student.php |
| `HardwareModel` | src/Models/Hardware.php, Procesador.php, TarjetaGrafica.php |
| `PhpArray` | the integer-keyed arrays both repositories keep |
| `StudentRepository` | src/Repositories/StudentRepository.php |
| `HardwareRepository` | src/Repositories/HardwareRepository.php |
| `Validator` | src/Utils/Validator.php |
| `Helpers` | src/Utils/Helpers.php |
| `HardwareForm` | public/hardware/crear.php, lines 38-119 |
| `StudentForm` | public/estudiantes/crear.php, lines 31-95 |

Two facts of the code the model keeps:

- A processor's details read "6 Núcleos a 4.6GHz".
- All five seeded students pass. The lowest average is 61.25.

## Model

| member | source | states |
|---|---|---|
| AcademicCalculator.SumAppend | src/Services/AcademicCalculator.php:18 | `array_sum` of a concatenation is the sum of the parts |
| AcademicCalculator.SumPermutation | src/Services/AcademicCalculator.php:18 | `array_sum` does not depend on the order of the grades |
| AcademicCalculator.SumBounds | src/Services/AcademicCalculator.php:18 | grades between lo and hi sum to between n·lo and n·hi |
| AcademicCalculator.CalcularPromedio | src/Services/AcademicCalculator.php:14-19 | 0 for no grades; otherwise the mean times the count is the sum |
| AcademicCalculator.PromedioWithin | src/Services/AcademicCalculator.php:14-19 | when every grade lies between lo and hi, so does the mean |
| AcademicCalculator.LetterBands | src/Services/AcademicCalculator.php:24-32 | each letter, in both directions, covers exactly its band: A ≥ 90, B [80,90), C [70,80), D [60,70), F < 60 |
| AcademicCalculator.LetterMonotone | src/Services/AcademicCalculator.php:24-32 | a higher average never gets a worse letter |
| AcademicCalculator.PassingIsNotF | src/Services/AcademicCalculator.php:37-39 | with the default mark of 60, passing is exactly not getting an F |
| AcademicCalculator.Min | src/Services/AcademicCalculator.php:56 | `min` is one of the grades and no grade is below it |
| AcademicCalculator.Max | src/Services/AcademicCalculator.php:57 | `max` is one of the grades and no grade is above it |
| AcademicCalculator.SortedGrades | src/Services/AcademicCalculator.php:60 | `sort` returns an ascending permutation of the grades |
| AcademicCalculator.SortedUnique | src/Services/AcademicCalculator.php:60 | two sorted sequences holding the same grades are equal, so the sorted order is unique |
| AcademicCalculator.MedianaBounds | src/Services/AcademicCalculator.php:59-65 | min ≤ median ≤ max; for an odd count the median is one of the grades |
| AcademicCalculator.MedianaOfSorted | src/Services/AcademicCalculator.php:60-65 | on sorted grades the median is the middle one (odd count) or the mean of the two middle ones (even count) |
| AcademicCalculator.MedianaExamples | src/Services/AcademicCalculator.php:60-65 | [60,70,80] has median 70 and [60,70,80,90] has median 75 |
| AcademicCalculator.MedianaOfThree | src/Services/AcademicCalculator.php:60-65 | three grades in order have the middle one as median |
| AcademicCalculator.MedianaOfFour | src/Services/AcademicCalculator.php:60-65 | four grades in order have the mean of the middle two as median |
| AcademicCalculator.Round2 | src/Services/AcademicCalculator.php:68 | `round(x, 2)` is within half a hundredth of x and has at most two decimals |
| AcademicCalculator.Round2Exact | src/Services/AcademicCalculator.php:68 | a value with at most two decimals is kept by rounding |
| AcademicCalculator.EstadisticasSinRedondeo | src/Services/AcademicCalculator.php:44-66 | the unrounded statistics count the grades and are all zero for no grades |
| AcademicCalculator.CalcularEstadisticas | src/Services/AcademicCalculator.php:44-74 | all zero for no grades; total_notas is the count; minimo and maximo are the least and greatest grade, unrounded; promedio and mediana have two decimals and lie within half a hundredth of the mean and the median |
| AcademicCalculator.EstadisticasOrdered | src/Services/AcademicCalculator.php:55-66 | before rounding, minimo ≤ promedio ≤ maximo and minimo ≤ mediana ≤ maximo, with minimo and maximo taken from the input |
| AcademicCalculator.EstadisticasOrderIndependent | src/Services/AcademicCalculator.php:44-74 | any permutation of the grades gives the same statistics |
| AcademicCalculator.MinMaxPermutation | src/Services/AcademicCalculator.php:56-57 | min and max do not depend on the order of the grades |
| AcademicCalculator.MedianaPermutation | src/Services/AcademicCalculator.php:59-65 | the median does not depend on the order of the grades |
| AcademicCalculator.NotaNecesariaParaAprobar | src/Services/AcademicCalculator.php:79-96 | 0 when nothing is missing; otherwise sum + r·(missing count) = pass mark · total |
| AcademicCalculator.SumRepeat | src/Services/AcademicCalculator.php:91-95 | k copies of x sum to k·x |
| AcademicCalculator.NotaNecesariaCompletes | src/Services/AcademicCalculator.php:79-96 | scoring the needed grade on every missing assessment makes the mean exactly the pass mark |
| Sorting.Insert | src/Services/AcademicCalculator.php:60 | inserting into a sorted sequence keeps it sorted and adds exactly one element |
| Sorting.Sort | src/Repositories/StudentRepository.php:135-138 | the result is sorted by the key and is a permutation of the input |
| Status.StatusValue | src/Enums/StudentStatus.php:10-13 | each status is backed by one of the four strings |
| Status.StatusFrom | src/Enums/StudentStatus.php:10-13 | reading a backing string gives the status with that value |
| Status.StatusTablesInjective | src/Enums/StudentStatus.php:10-31 | values, labels ('Activo'…) and colours ('green'…) each tell the statuses apart; `from(value)` inverts `value` |
| Status.StatusCases | src/Enums/StudentStatus.php:10-13 | there are exactly four statuses |
| Roles.RolesExclusive | src/Enums/UserRole.php:10-37 | no role is both admin and teacher; student is exactly the role that is neither; values and labels are injective |
| StudentModel.NombreCompleto | src/Models/Student.php:42-44 | the full name is as long as the three parts plus two separators |
| StudentModel.NombreCompletoSplits | src/Models/Student.php:42-44 | when no part contains a space, the full name splits back into exactly the three parts |
| StudentModel.AgregarNota | src/Models/Student.php:49-51 | exactly one grade is appended at the end; earlier grades and every other field are unchanged |
| StudentModel.Promedio | src/Models/Student.php:56-61 | 0 with no grades; otherwise the mean times the count is the sum |
| StudentModel.PromedioIsCalculatorMean | src/Models/Student.php:56-61 | the student's average equals the calculator's mean of the same grades |
| StudentModel.PromedioAfterAgregarNota | src/Models/Student.php:49-61 | adding a grade raises the grade total by exactly that grade |
| StudentModel.EstaAprobadoAgrees | src/Models/Student.php:66-68 | passing agrees with the calculator's pass test at 60 and with a letter other than F |
| StudentModel.ToArray | src/Models/Student.php:80-98 | nombre_completo, promedio, aprobado, activo and estado_label agree with the getters; estado reads back as the status |
| StudentModel.GenerarReporte | src/Models/Student.php:104-130 | grades unchanged; mejor/peor nota are max/min; promedio is within 0.005 of the exact mean; letra and aprobado come from the rounded promedio |
| StudentModel.ReportRoundingCanPass | src/Models/Student.php:118-120 | a single grade of 59.996 fails `estaAprobado` but passes in the report |
| StudentRepository.SeedFromShape | src/Repositories/StudentRepository.php:33-51 | fixture row k is stored at position k under id k+1, and nextId ends one past the last row |
| StudentRepository.ConstructEntries | src/Repositories/StudentRepository.php:24-52 | construction yields the seeded shape with nextId 6 |
| StudentRepository.SeedCodigoDigit | src/Repositories/StudentRepository.php:38 | for k < 10 the code is '2024-0000' followed by the digit k |
| StudentRepository.SeedCodigoValid | src/Repositories/StudentRepository.php:38 | a fixture code is the helper's code for year 2024, and it passes `codigoEstudiante` exactly when 0 ≤ k ≤ 99999 |
| StudentRepository.FixtureYear | src/Repositories/StudentRepository.php:38 | the year 2024 renders as its four digits |
| StudentRepository.SeededShape | src/Repositories/StudentRepository.php:24-52 | five students with ids 1..5 and codes '2024-00001'..'2024-00005'; only id 5 is inactive; the store is valid |
| StudentRepository.FindAll | src/Repositories/StudentRepository.php:57-59 | the stored students in insertion order |
| StudentRepository.FindById | src/Repositories/StudentRepository.php:64-66 | the student stored under the id, or nothing exactly when the id is absent |
| StudentRepository.FindByCodigo | src/Repositories/StudentRepository.php:71-77 | nothing exactly when no student has the code; otherwise the first student in insertion order with exactly that code |
| StudentRepository.Search | src/Repositories/StudentRepository.php:82-88 | exactly the stored entries whose lower-cased full name contains the lower-cased query |
| StudentRepository.SearchCaseInsensitive | src/Repositories/StudentRepository.php:82-88 | the query's case does not matter, and the empty query returns everyone |
| StudentRepository.FindBySemestre | src/Repositories/StudentRepository.php:93-98 | exactly the stored entries in that semester, keys kept |
| StudentRepository.FindByEstado | src/Repositories/StudentRepository.php:103-108 | exactly the stored entries with that status, keys kept |
| StudentRepository.FindAprobados | src/Repositories/StudentRepository.php:113-118 | exactly the stored entries that pass |
| StudentRepository.FindReprobados | src/Repositories/StudentRepository.php:123-128 | exactly the stored entries that fail |
| StudentRepository.AprobadosReprobadosPartition | src/Repositories/StudentRepository.php:113-128 | the two lists are disjoint, their sizes add up to the store, and each student is in exactly one |
| StudentRepository.OrderByPromedio | src/Repositories/StudentRepository.php:133-140 | a permutation of all students, non-increasing by average when descending and non-decreasing otherwise |
| StudentRepository.Promedios | src/Repositories/StudentRepository.php:149 | each student's average, in store order |
| StudentRepository.GetEstadisticas | src/Repositories/StudentRepository.php:145-161 | total is the store size; aprobados is the passing count; aprobados + reprobados = total; the rate is the percentage; promedio_general is the mean of the averages |
| StudentRepository.EstadisticasReprobados | src/Repositories/StudentRepository.php:157 | reprobados is the size of `findReprobados` |
| StudentRepository.Porcentaje | src/Repositories/StudentRepository.php:159 | 0 for an empty total; otherwise p·total = 100·part, so p lies in [0, 100] |
| StudentRepository.PromedioOfFour | src/Models/Student.php:56-61 | four grades average to their sum over four |
| StudentRepository.SeededPromedios | src/Repositories/StudentRepository.php:26-30 | the seeded averages are 88.75, 81.25, 94.75, 68.75 and 61.25 |
| StudentRepository.SeedMean | src/Repositories/StudentRepository.php:150-152 | those five averages have mean 78.95 |
| StudentRepository.SeededEstadisticas | src/Repositories/StudentRepository.php:145-161 | with the fixtures: 5 pass, 0 fail, a 100% rate and promedio_general 78.95 |
| StudentRepository.BestStudentFirst | src/Repositories/StudentRepository.php:133-140 | a student with a strictly highest average heads the descending order |
| StudentRepository.SeededTopStudent | src/Repositories/StudentRepository.php:133-140 | in descending order the fixtures start with student 3 (94.75) |
| HardwareModel.SetId | src/Models/Hardware.php:32-35 | the id becomes the given one, whatever it was; the variant and every other field are unchanged |
| HardwareModel.ObtenerDetallesTecnicos | src/Models/Procesador.php:35-38 | a card shows its VRAM verbatim; a processor's details read back as exactly its cores and frequency |
| HardwareModel.DetallesProcesadorInjective | src/Models/Procesador.php:35-38 | processors with equal details have equal cores and frequency |
| HardwareModel.DetallesIgnoreBaseFields | src/Models/Hardware.php:53 | the details never depend on id, brand, model, price, stock or category |
| HardwareModel.SetIdKeepsDerived | src/Models/Hardware.php:43-46 | the critical flag is exactly stock < 3, and assigning an id changes neither it nor the details |
| HardwareModel.DetallesExamples | src/Models/TarjetaGrafica.php:33-36 | 6 cores at '4.6GHz' show "6 Núcleos a 4.6GHz"; '8GB GDDR6' shows itself |
| PhpArray.Keys | src/Repositories/HardwareRepository.php:18 | the keys in insertion order |
| PhpArray.Values | src/Repositories/HardwareRepository.php:120 | `array_values`: the values in insertion order |
| PhpArray.Get | src/Repositories/HardwareRepository.php:128 | `$a[$k] ?? null`: nothing exactly for an absent key, otherwise a stored entry's value |
| PhpArray.GetStored | src/Repositories/StudentRepository.php:65 | with distinct keys, a stored key finds its own entry |
| PhpArray.Put | src/Repositories/HardwareRepository.php:111 | a new key is appended; an existing key is replaced in place; the key now maps to the value and no other key changes |
| PhpArray.ReplaceGet | src/Repositories/HardwareRepository.php:111 | an in-place replacement changes only the replaced key's lookup |
| PhpArray.AppendGet | src/Repositories/HardwareRepository.php:111 | appending a new key changes only that key's lookup |
| PhpArray.Remove | src/Repositories/HardwareRepository.php:136 | `unset` keeps only entries of the array, none under the key |
| PhpArray.RemoveKeeps | src/Repositories/HardwareRepository.php:136 | every other entry survives, removing an absent key changes nothing, and with distinct keys the one entry under the key is cut out with the rest kept in order |
| PhpArray.RemoveSplice | src/Repositories/HardwareRepository.php:136 | with distinct keys, `unset` of a stored key gives the entries before it followed by the entries after it |
| PhpArray.RemoveDistinct | src/Repositories/HardwareRepository.php:136 | removal keeps keys distinct |
| PhpArray.RemoveCount | src/Repositories/HardwareRepository.php:136 | removing a present key shrinks the array by one |
| PhpArray.RemoveGet | src/Repositories/HardwareRepository.php:136 | afterwards the key is absent and every other lookup is unchanged |
| PhpArray.RemoveGetOther | src/Repositories/HardwareRepository.php:136 | removing one key leaves the lookup of any other key unchanged, whether or not keys are distinct |
| PhpArray.Filter | src/Repositories/StudentRepository.php:93-98 | `array_filter`: exactly the entries whose value satisfies the predicate, keys kept; their order is stated by FilterInOrder |
| PhpArray.KeptExactly | src/Repositories/StudentRepository.php:93-98 | the ascending position list `Kept` holds exactly the positions whose value satisfies the predicate |
| PhpArray.FilterInOrder | src/Repositories/StudentRepository.php:93-98 | `array_filter` keeps the survivors in their original order: the result reads the array at the ascending positions `Kept` |
| PhpArray.FilterPartition | src/Repositories/StudentRepository.php:113-128 | a predicate's filter and its negation's filter add up to the whole array |
| PhpArray.FilterAll | src/Repositories/StudentRepository.php:82-88 | filtering by a predicate every value meets changes nothing |
| PhpArray.FilterFirst | src/Repositories/StudentRepository.php:71-77 | the filter is non-empty exactly when some entry qualifies, and then it starts with the first such entry |
| PhpArray.FilterCongruent | src/Repositories/StudentRepository.php:82-88 | predicates that agree on the stored values filter alike |
| HardwareRepository.SaveToSession | src/Repositories/HardwareRepository.php:44-48 | the session holds exactly the items and nextId |
| HardwareRepository.Save | src/Repositories/HardwareRepository.php:106-113 | a new item takes nextId, which advances by one; an item with an id keeps nextId and its position; findById finds the item, other lookups are unchanged, and the session is synced |
| HardwareRepository.FindAll | src/Repositories/HardwareRepository.php:118-121 | the items in insertion order |
| HardwareRepository.FindById | src/Repositories/HardwareRepository.php:126-129 | the item under the id, or nothing exactly when absent |
| HardwareRepository.Delete | src/Repositories/HardwareRepository.php:134-138 | the id is gone; every other entry and lookup is kept; an absent id changes nothing; with distinct keys a present id's entry is cut out and the others keep their order; nextId is unchanged; the session is synced |
| HardwareRepository.SavePreservesValid | src/Repositories/HardwareRepository.php:106-113 | saving a new item, or one with an already issued id, keeps keys distinct, below nextId and equal to the items' ids |
| HardwareRepository.DeletePreservesValid | src/Repositories/HardwareRepository.php:134-138 | deleting keeps the store valid |
| HardwareRepository.NewIdIsFresh | src/Repositories/HardwareRepository.php:108-111 | in a valid store nextId is unused, so a new item grows the store by one |
| HardwareRepository.AutoIdsIncrease | src/Repositories/HardwareRepository.php:109 | along any run nextId never decreases, and the ids handed out are strictly increasing and below the final nextId |
| HardwareRepository.RunPreservesValid | src/Repositories/HardwareRepository.php:106-138 | any run of allowed saves and deletes keeps the store valid |
| HardwareRepository.AutoIdsAreNew | src/Repositories/HardwareRepository.php:109 | no id handed out during a run belongs to an item stored before it, so ids are never reused |
| HardwareRepository.RunSynced | src/Repositories/HardwareRepository.php:112 | after any non-empty run of writes the session equals the live state |
| HardwareRepository.RunLiveKeys | src/Repositories/HardwareRepository.php:118-121 | after a run, a key is listed exactly when it was last stored, or was there at the start and never touched |
| HardwareRepository.DeleteKeepsOtherKeys | src/Repositories/HardwareRepository.php:134-137 | deleting one id never adds or drops another key |
| HardwareRepository.Construct | src/Repositories/HardwareRepository.php:21-39 | an existing snapshot is restored as is (nextId defaulting to 1); without one the store is seeded and written to the session |
| HardwareRepository.RestoreRoundTrip | src/Repositories/HardwareRepository.php:29-48 | rebuilding from a synced repository's snapshot gives back that repository |
| HardwareRepository.SeedFromShape | src/Repositories/HardwareRepository.php:96-98 | saving new items one by one stores item k under id k+1 in order |
| HardwareRepository.ConstructSeeds | src/Repositories/HardwareRepository.php:29-39 | without a snapshot the constructor yields the seeded store, synced |
| HardwareRepository.SeededFacts | src/Repositories/HardwareRepository.php:53-99 | a seeded store is valid with ids 1..4, and exactly items 2 and 4 are stock-critical |
| Validator.Ci | src/Utils/Validator.php:21-24 | an accepted CI has 6 to 11 characters after trimming |
| Validator.CiPatternStructure | src/Utils/Validator.php:23 | the pattern holds exactly for 6–8 digits followed by nothing or '-' and two capitals |
| Validator.CiStructure | src/Utils/Validator.php:21-24 | `ci` accepts exactly the strings whose trimmed form has that structure |
| Validator.CiIgnoresPadding | src/Utils/Validator.php:22 | surrounding whitespace never changes the verdict |
| Validator.CiExamples | src/Utils/Validator.php:21-24 | '12345678-LP' is accepted; '12345' and null are rejected |
| Validator.CodigoEstudiante | src/Utils/Validator.php:29-33 | an accepted code is 10 characters after trimming |
| Validator.CodigoStructure | src/Utils/Validator.php:29-33 | accepted exactly when the trimmed code is four digits, '-', five digits |
| Validator.CodigoIgnoresPadding | src/Utils/Validator.php:31 | surrounding whitespace never changes the verdict |
| Validator.EdadBounds | src/Utils/Validator.php:38-40 | accepted exactly for a present age in [16, 100]; the bounds are inclusive |
| Validator.LongitudCountsBytes | src/Utils/Validator.php:45-48 | the length counted is bytes: equal to the character count on ASCII and larger otherwise |
| Validator.Telefono | src/Utils/Validator.php:53-56 | an accepted number has 11 or 12 characters once whitespace is removed |
| Validator.TelefonoIgnoresSpaces | src/Utils/Validator.php:54 | inserting whitespace anywhere never changes the verdict |
| Validator.TelefonoCompact | src/Utils/Validator.php:55 | '+59178451234' has no whitespace and matches |
| Validator.TelefonoExample | src/Utils/Validator.php:53-56 | '+591 78451234' is accepted |
| Validator.Requerido | src/Utils/Validator.php:61-64 | a string is required-valid exactly when it has a character that `trim` does not remove |
| Helpers.GenerarCodigoEstudiante | src/Utils/Helpers.php:14-17 | the code is at least 10 characters long |
| Helpers.CodigoValidExactly | src/Utils/Helpers.php:14-17 | the code passes `codigoEstudiante` exactly when 0 ≤ year ≤ 9999 and 0 ≤ number ≤ 99999 |
| Helpers.CodigoReadsBack | src/Utils/Helpers.php:14-17 | in range, the code's two digit blocks read back as the year and the number |
| Helpers.Firsts | src/Utils/Helpers.php:39-40 | at most one initial per word |
| Helpers.WordStarts | src/Utils/Helpers.php:37-41 | the scan yields at most one character per input character, each a non-space character of the input |
| Helpers.FirstsSplit | src/Utils/Helpers.php:38-40 | the first characters of the `explode` pieces are exactly the characters the scan finds at word starts |
| Helpers.GenerarIniciales | src/Utils/Helpers.php:37-41 | the initials are the upper-cased word starts of the name |
| Helpers.InicialesOfNombreCompleto | src/Utils/Helpers.php:37-41 | for single-word, non-empty name parts, the initials of the full name are the three upper-cased first letters |
| Helpers.WordStartsWord | src/Utils/Helpers.php:38-39 | a space-free word contributes its first character exactly when it begins a word |
| Helpers.WordStartsExample | src/Utils/Helpers.php:38-39 | the scan skips repeated and trailing spaces |
| Helpers.InicialesExample | src/Utils/Helpers.php:37-41 | 'ana  maria lopez ' gives 'AML' |
| Helpers.FormatearTelefono | src/Utils/Helpers.php:46-62 | null gives 'N/A'; the digits are always kept; exactly when the digits are 11 and start with 591, the result is the `+591 XX XXX XXX` layout of them, and otherwise it is the input |
| Helpers.LayoutDigits | src/Utils/Helpers.php:54-58 | the layout's digits are exactly the 11 digits it was built from |
| Helpers.FormatearTelefonoIdempotent | src/Utils/Helpers.php:46-62 | formatting twice is formatting once |
| Helpers.LayoutStripped | src/Utils/Helpers.php:54-58 | without its spaces the layout is '+' and the digits |
| Helpers.DigitsIgnoreSpaces | src/Utils/Helpers.php:51 | removing whitespace first does not change the digits |
| Helpers.FormatearTelefonoKeepsValid | src/Utils/Helpers.php:46-62 | every number `telefono` accepts is laid out, and the layout is still accepted |
| Helpers.PrefixSubstr | src/Utils/Helpers.php:76 | `mb_substr(s, 0, n)` is a prefix of s: n characters when n ≥ 0, all but the last -n when n < 0 |
| Helpers.Truncar | src/Utils/Helpers.php:67-77 | a short enough text is kept; a longer one ends with the suffix after a prefix of the text, and has exactly the limit's length when the limit leaves room for the suffix |
| Helpers.TruncarIdempotent | src/Utils/Helpers.php:72-76 | when the limit leaves room for the suffix, truncating again changes nothing |
| Helpers.TruncarShortLimitGrows | src/Utils/Helpers.php:76 | with a limit shorter than the suffix the result is longer than the text and grows again when truncated |
| Text.Trim | src/Utils/Validator.php:22 | `trim` leaves no trim character at either end and is empty exactly for all-whitespace input |
| Text.TrimUnpadded | src/Utils/Validator.php:22 | a string not starting or ending with whitespace is its own trim |
| Text.TrimPadding | src/Utils/Validator.php:22 | whitespace added around a string does not change its trim |
| Text.TrimIdempotent | src/Utils/Validator.php:63 | trimming twice is trimming once |
| Text.Keep | src/Utils/Helpers.php:51 | the characters kept by a `preg_replace` deletion all satisfy the class |
| Text.KeepAppend | src/Utils/Helpers.php:51 | deletion distributes over concatenation |
| Text.KeepKeep | src/Utils/Helpers.php:51 | deleting with a weaker class and then a stricter one equals the stricter one alone |
| Text.StripSpacesDropsRun | src/Utils/Validator.php:54 | a whitespace run between two texts disappears |
| Text.DigitsOnly | src/Utils/Helpers.php:51 | `preg_replace('/\D/', '', s)` leaves only digits |
| Text.ToLower | src/Repositories/StudentRepository.php:84-85 | `strtolower` maps each character and keeps the length |
| Text.ToLowerIdempotent | src/Repositories/StudentRepository.php:84-85 | lower-casing twice is lower-casing once |
| Text.ToUpper | src/Utils/Helpers.php:40 | upper-casing maps each character and keeps the length |
| Text.Contains | src/Repositories/StudentRepository.php:86 | `str_contains` holds exactly when the needle occurs at some position |
| Text.IndexOf | src/Models/Procesador.php:37 | a helper for reading the details string back: the first position holding the character, or nothing exactly when it is absent |
| Text.Split | src/Utils/Helpers.php:38 | `explode` yields at least one piece, none containing the separator |
| Text.JoinSplit | src/Utils/Helpers.php:38-40 | joining the pieces of `explode` restores the string |
| Text.SplitJoin | src/Models/Student.php:42-44 | splitting a join of separator-free pieces gives the pieces back |
| Text.NatToString | src/Models/Procesador.php:37 | a decimal numeral without a leading zero |
| Text.ParseNatToString | src/Models/Procesador.php:37 | the numeral reads back as the number |
| Text.ParseIntToString | src/Models/Procesador.php:37 | a rendered integer, sign included, reads back as itself |
| Text.IntToStringInjective | src/Models/Procesador.php:37 | distinct integers render differently |
| Text.FormatInt | src/Utils/Helpers.php:16 | `sprintf('%0Nd')` is at least N characters long |
| Text.FormatIntParses | src/Utils/Helpers.php:16 | a padded non-negative number is all digits and reads back as itself |
| Text.NatToStringLength | src/Utils/Helpers.php:16 | the numeral fits in N digits exactly when n < 10^N |
| Text.FormatIntShape | src/Utils/Helpers.php:16 | a padded rendering ends in a digit; a negative one starts with '-'; a non-negative one is exactly N long iff n < 10^N |
| Text.ParseNatLeadingZeros | src/Utils/Helpers.php:16 | leading zeros do not change the value |
| Text.ByteLength | src/Utils/Validator.php:46 | `strlen` counts between 1 and 4 bytes per character |
| Text.ByteLengthAppend | src/Utils/Validator.php:46 | byte length adds over concatenation |
| Text.EscapeChar | public/estudiantes/crear.php:32 | one character escapes to itself or to a longer entity |
| Text.EscapeHtml | public/estudiantes/crear.php:32 | escaping never shortens a text |
| Text.EscapeHtmlEnds | public/hardware/crear.php:40 | escaping keeps the whitespace status of both ends, and maps "" and "0" only to themselves |
| Text.EscapeHtmlNoTrim | public/hardware/crear.php:40 | escaping a trimmed text leaves nothing for `trim` to remove |
| Text.EscapeTrimmed | src/Utils/Helpers.php:82-84 | `htmlspecialchars(trim(v))` (also the forms' reading of text fields) is trimmed, is PHP-empty exactly when trim(v) is, and is "" exactly for all-whitespace input |
| HardwareForm.Leer | public/hardware/crear.php:38-49 | tipo defaults to 'procesador'; missing numbers read as 0; each text field is PHP-empty exactly when its trimmed post is |
| HardwareForm.Errores | public/hardware/crear.php:53-85 | a field has an entry exactly when its check fails, and then holds just its message |
| HardwareForm.ErroresComunes | public/hardware/crear.php:53-71 | marca, modelo, categoria fail exactly when PHP-empty; precio fails when ≤ 0; stock fails when < 0 |
| HardwareForm.ErroresPorTipo | public/hardware/crear.php:74-85 | núcleos and frecuencia are checked only for 'procesador', vram only for 'tarjeta_grafica', and neither for any other tipo |
| HardwareForm.ErroresVaciosSiiAceptable | public/hardware/crear.php:53-88 | no error is raised exactly for the records that meet every field rule |
| HardwareForm.Construir | public/hardware/crear.php:91-112 | a processor exactly for tipo 'procesador', otherwise a graphics card, with no id and the posted base fields |
| HardwareForm.Procesar | public/hardware/crear.php:88-119 | success exactly when there are no errors, exactly for acceptable posts; a failure leaves the session untouched; a success writes both session keys |
| HardwareForm.ProcesarAgrega | public/hardware/crear.php:88-114 | on a valid store a success appends one item under the next id, advances nextId by one, and the next page load finds it |
| HardwareForm.GuardadoEsCoherente | public/hardware/crear.php:61-114 | every saved item has price > 0, stock ≥ 0 and non-empty texts; a saved processor has ≥ 1 core and a frequency |
| HardwareForm.TipoDesconocidoGuardaTarjeta | public/hardware/crear.php:81-111 | an unknown tipo skips the type checks and saves a graphics card, with empty VRAM when none was posted |
| HardwareForm.MarcaCeroRechazada | public/hardware/crear.php:53-55 | a brand of " 0 " is rejected, because `empty("0")` holds |
| StudentForm.Leer | public/estudiantes/crear.php:31-40 | a name reads as "" exactly when its post is blank; the name and CI are trimmed; semestre defaults to 1 and estado to 'active' |
| StudentForm.Errores | public/estudiantes/crear.php:42-85 | a field has an entry exactly when its check fails, and then holds just the message of the first failing branch |
| StudentForm.SinErroresSii | public/estudiantes/crear.php:42-88 | no error exactly when every validator call says yes (the phone only when present) and the semester is in 1..10 |
| StudentForm.ErroresVaciosSiiAceptable | public/estudiantes/crear.php:42-88 | no error is raised exactly for the acceptable records |
| StudentForm.Procesar | public/estudiantes/crear.php:87-95 | success exactly when there are no errors, exactly for acceptable posts; nothing is stored |
| StudentForm.NombreSegunPost | public/estudiantes/crear.php:42-47 | the 'requerido' message appears exactly for a blank name; otherwise the name fails only on the byte length of its escaped form |
| StudentForm.TelefonoAusente | public/estudiantes/crear.php:77-80 | with no phone there is no phone error |
| StudentForm.TelefonoOpcional | public/estudiantes/crear.php:77-80 | a blank or missing phone never raises an error |
| StudentForm.EstadoNoSeValida | public/estudiantes/crear.php:39 | the posted estado never changes the outcome |
| StudentForm.LongitudCuentaEscapado | public/estudiantes/crear.php:45 | the one-character name "&" passes the 2-byte minimum, because it is escaped to "&amp;" |

## Left out

- HTML, CSS and JavaScript: every page template, `number_format`, redirects, and the
  list, report and delete pages. These are presentation around the repositories.
- CSRF: `random_bytes`, `hash_equals` and `die` at the top of both forms. The model
  starts after the token check has passed.
- `session_start` and `$_SESSION`: the session is the `Session` record passed to and
  returned by the hardware operations.
- `date('Y')` in `generarCodigoEstudiante` is the clock, so the year is a parameter.
- `Validator::email`, `FILTER_SANITIZE_EMAIL` and `filter_var` have no visible rule
  set. The student form takes them as the function parameters `sanear` and
  `emailValido`.
- `Validator::requerido` on non-strings (`!empty($valor)`) is left out: every call in
  the core passes a string.
- `formatearNombre` is left out: `mb_convert_case` title-casing has no visible rule
  set.
- `mb_strtoupper` and `strtolower` are modelled on ASCII letters only. Other letters
  are left unchanged, so full Unicode case mapping is not modelled.
- Casts of posted strings (`(int)`, `(float)`) are not modelled: numeric fields arrive
  already converted.
- The order of the keys in `$errores` is not modelled. The error maps are Dafny maps,
  so PHP's insertion order is lost.
- Posted bytes that are not valid UTF-8 are not modelled. Strings here are sequences
  of Unicode scalar values, so the "" that `htmlspecialchars` returns for such input
  (and the "required" error it then causes) cannot arise.
- IEEE floating point is not modelled: grades and prices are exact reals.
  `round(…, 2)` rounds the exact value half away from zero.
- Objects shared by reference are not modelled: `save` returns the item with its new
  id beside the repository.
- config/database.php is not part of this model. It only builds a connection string
  that nothing uses.
- Concurrent requests on one session are not modelled: each request runs alone.
- Sorting.Sort: stability (equal averages keep their store order) holds by
  construction but is not stated.
- Helpers.Truncar: the result's length is stated only when the limit leaves room for
  the suffix; for a shorter limit see `TruncarShortLimitGrows`.

Behaviours of the code that the model makes explicit:

- An unknown hardware tipo skips the type checks and saves a graphics card
  (`TipoDesconocidoGuardaTarjeta`).
- A text field of "0" counts as empty (`MarcaCeroRechazada`).
- Student names are length-checked on their escaped bytes (`LongitudCuentaEscapado`).
- The posted student estado is never validated (`EstadoNoSeValida`).
- `truncar` with a limit shorter than its suffix returns a longer text
  (`TruncarShortLimitGrows`).
