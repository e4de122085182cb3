# Inventory app core, modelled in Dafny

This project models the three places where the Android inventory app holds
real logic, and proves what their code promises.

- **`InventoryItem`** (`inventory.dfy`, module `Inventory`) is a class with
  the item fields. Title and description are truncated to 20 and 40
  characters. `setQuantity` keeps a value only when it lies strictly
  between 0 and `Integer.MAX_VALUE`. `incrementQty` stops at
  `Integer.MAX_VALUE`, and `decrementQty` stops at 0. An optional
  zero-quantity listener is told when a decrement reaches 0. The listener
  is an identity (`Listener`), and a ghost log `notices` records every
  `onQuantityZero` delivery.
- **`User`** (`users.dfy`, module `Users`) is the credential. Its
  constructor keeps a supplied hash or computes one. The hex-encoding loop
  of `ComputeHash` is proved equal to a byte-wise hex function. That
  function is shown to be injective and is given a decoder. `equals`
  compares username and hash only, with every path where Java throws a
  `NullPointerException`. `hashCode` is consistent with it.
- **`LoginActivity`'s submit handler** (`login.dfy`, module `Login`) is a
  class `LoginScreen`. Its state is the button text that sets the mode,
  the three text fields, the Toasts shown, the user ids handed to
  `MainActivity` and a ghost log of store calls. `OnSubmitClick` is proved
  against the pure function `Decide`, and the lemmas about `Decide` state
  the registration and login rules.
- `java.dfy` (module `Java`) holds the platform pieces: 32-bit `int`,
  signed `byte`, `null` as `Option`, two's-complement wrap-around and
  `Integer.toString(int, radix)`.

Things that come from outside the code are parameters:

- `Crypto` carries `String.getBytes()` and the SHA-256 `MessageDigest`.
  The digest is `None` when `getInstance` throws
  `NoSuchAlgorithmException`.
- `hashCode` takes `String.hashCode` as `stringHash`.
- A `StoreAnswers` value says what each background store call returns
  during one click. `Threw` stands for a failed `Future.get()`.

Two behaviours of the code worth stating:

- If listing the users fails, `getUsers` returns an empty list. The
  duplicate-name check then passes, so a registration goes ahead without
  a uniqueness check (`FailedListingPassesDuplicateCheck`).
- Rebuilding an item from its own getters loses a quantity of exactly
  `Integer.MAX_VALUE`, which becomes 0. `incrementQty` can reach that
  value, but the constructor's `setQuantity` refuses it
  (`CopyFromGetters`). The copy also has no zero-quantity listener, since
  the constructor never sets one. The item copy in
  `app/src/main/java/com/zybooks/inventoryproject/MainActivity.java` at
  line 246 does exactly this.

## Model

| member | source | states |
|---|---|---|
| `Java.Wrap32` | app/src/main/java/com/zybooks/inventoryproject/User.java:126 | the result is a Java `int` that agrees with the exact value modulo 2^32; a value already in `int` range is unchanged |
| `Java.Unsigned` | app/src/main/java/com/zybooks/inventoryproject/User.java:92 | `b & 0xff` lies in 0..255 and agrees with the byte modulo 256 |
| `Java.Digits` | app/src/main/java/com/zybooks/inventoryproject/User.java:92 | the digit text of a number is never empty |
| `Java.DigitsInRadix` | app/src/main/java/com/zybooks/inventoryproject/User.java:92 | every character of the digit text is a digit whose value is below the radix |
| `Java.ParseDigitsAppend` | app/src/main/java/com/zybooks/inventoryproject/User.java:92 | appending a digit to a digit text multiplies its value by the radix and adds the digit |
| `Java.DigitsRoundTrip` | app/src/main/java/com/zybooks/inventoryproject/User.java:92 | reading the digit text of `n` back gives `n` |
| `Java.DigitsNoLeadingZero` | app/src/main/java/com/zybooks/inventoryproject/InventoryItem.java:139 | the digit text starts with '0' exactly when the number is zero |
| `Java.IntToString` | app/src/main/java/com/zybooks/inventoryproject/InventoryItem.java:139 | for `i >= 0` the text is digits of the radix that read back as `i`, with a leading '0' only for zero, which is the single digit "0"; for `i < 0` it is '-' followed by such digits for `-i`; a radix outside 2..36 means 10 |
| `Java.DecimalIsDigits` | app/src/main/java/com/zybooks/inventoryproject/InventoryItem.java:139 | the decimal text of a non-negative quantity holds only the characters 0-9 |
| `Inventory.Substring` | app/src/main/java/com/zybooks/inventoryproject/InventoryItem.java:151-153 | the result is a prefix of `s`, at most `a` long, all of `s` when `s` fits, and exactly `a` long when it does not |
| `Inventory.SubstringIdempotent` | app/src/main/java/com/zybooks/inventoryproject/InventoryItem.java:93-105 | truncating an already truncated title or description changes nothing |
| `Inventory.ApplyQty` | app/src/main/java/com/zybooks/inventoryproject/InventoryItem.java:112-130 | every quantity operation maps [0, MAX_VALUE] into itself |
| `Inventory.SetQuantityClamps` | app/src/main/java/com/zybooks/inventoryproject/InventoryItem.java:112-114 | `setQuantity(v)` keeps `v` iff 0 <= v < MAX_VALUE; any other value, MAX_VALUE and negatives included, becomes 0; the result is always below MAX_VALUE |
| `Inventory.IncrementSaturates` | app/src/main/java/com/zybooks/inventoryproject/InventoryItem.java:117-121 | below MAX_VALUE an increment adds exactly 1; at MAX_VALUE it changes nothing |
| `Inventory.RunQtyStaysInRange` | app/src/main/java/com/zybooks/inventoryproject/InventoryItem.java:112-130 | after any sequence of set, increment and decrement operations the quantity stays within [0, MAX_VALUE] |
| `Inventory.ZeroNotice` | app/src/main/java/com/zybooks/inventoryproject/InventoryItem.java:123-130 | a decrement notifies iff it moves the quantity to 0 from a non-zero value and a listener is attached; the only one notified is that listener |
| `Inventory.CountdownAtZero` | app/src/main/java/com/zybooks/inventoryproject/InventoryItem.java:123-130 | any number of decrements at 0 leave the quantity at 0 and notify nobody |
| `Inventory.CountdownNotifiesOnceAtZero` | app/src/main/java/com/zybooks/inventoryproject/InventoryItem.java:123-130 | from `n > 0`, decrements notify nobody before the n-th; the n-th brings the quantity to 0 and notifies the listener exactly once; later ones change nothing |
| `Inventory.CountdownWithoutListenerIsSilent` | app/src/main/java/com/zybooks/inventoryproject/InventoryItem.java:35-41 | with the listener unset, no number of decrements notifies anybody |
| `Inventory.DescribeInjective` | app/src/main/java/com/zybooks/inventoryproject/InventoryItem.java:136-140 | the `toString` text of a non-negative quantity determines both the title and the quantity |
| `Inventory.Describe` | app/src/main/java/com/zybooks/inventoryproject/InventoryItem.java:136-140 | the text opens with "[ " and the title, then " has a quantity of ", and closes with " ]"; what lies in between is decimal digits without a leading zero reading back as the quantity, after a '-' when it is negative |
| `Inventory.InventoryItem.ToString` | app/src/main/java/com/zybooks/inventoryproject/InventoryItem.java:136-140 | the item's text is the `Describe` text of its title and quantity, so it has that layout and, for a non-negative quantity, determines both (`DescribeInjective`) |
| `Inventory.InventoryItem.constructor` | app/src/main/java/com/zybooks/inventoryproject/InventoryItem.java:55-61 | `id` and `userId` are stored verbatim; title, description and quantity go through the setters; no listener is attached; the bounds hold |
| `Inventory.InventoryItem.SetQtyZeroListener` | app/src/main/java/com/zybooks/inventoryproject/InventoryItem.java:35-37 | the given listener is attached, no other field changes, and the item's bounds hold afterwards exactly when they held before |
| `Inventory.InventoryItem.UnsetQtyZeroListener` | app/src/main/java/com/zybooks/inventoryproject/InventoryItem.java:39-41 | the listener is detached, no other field changes, and the item's bounds hold afterwards exactly when they held before |
| `Inventory.InventoryItem.SetTitle` | app/src/main/java/com/zybooks/inventoryproject/InventoryItem.java:93-95 | the title becomes the first min(20, length of `t`) characters of `t`; nothing else changes; an item within its bounds stays within them |
| `Inventory.InventoryItem.SetDescription` | app/src/main/java/com/zybooks/inventoryproject/InventoryItem.java:103-105 | the description becomes the first min(40, length of `d`) characters of `d`; nothing else changes; an item within its bounds stays within them |
| `Inventory.InventoryItem.SetQuantity` | app/src/main/java/com/zybooks/inventoryproject/InventoryItem.java:112-114 | the quantity becomes the clamped value, whatever it was before; nothing else changes; an item within its bounds stays within them |
| `Inventory.InventoryItem.IncrementQty` | app/src/main/java/com/zybooks/inventoryproject/InventoryItem.java:117-121 | the quantity is incremented unless it is at MAX_VALUE, for any starting quantity; nothing else changes; an item within its bounds stays within them |
| `Inventory.InventoryItem.DecrementQty` | app/src/main/java/com/zybooks/inventoryproject/InventoryItem.java:123-130 | the quantity is decremented only when it is positive, for any starting quantity; the attached listener is told exactly when the quantity goes from 1 to 0; only the quantity and the notice log change; an item within its bounds stays within them |
| `Inventory.InventoryItem.CopyFromGetters` | app/src/main/java/com/zybooks/inventoryproject/InventoryItem.java:55-61 | an item rebuilt from its getters sends title, description and quantity through the setters again; for an item within its bounds it keeps id, title, description and userId, and the quantity unless it is exactly MAX_VALUE, which becomes 0; the copy has no listener |
| `Users.HexOfByte` | app/src/main/java/com/zybooks/inventoryproject/User.java:92 | each byte becomes exactly two characters |
| `Users.Hex` | app/src/main/java/com/zybooks/inventoryproject/User.java:90-94 | the hex text of a byte sequence is exactly twice as long as the sequence |
| `Users.HexAppend` | app/src/main/java/com/zybooks/inventoryproject/User.java:90-94 | appending a byte appends its two hex digits to the text |
| `Users.HexPairAt` | app/src/main/java/com/zybooks/inventoryproject/User.java:90-94 | characters 2i and 2i+1 are the digits of byte i, high nibble first |
| `Users.HexIsLowerCaseDigits` | app/src/main/java/com/zybooks/inventoryproject/User.java:90-94 | every character of the text is one of 0-9 or a-f |
| `Users.HexRoundTrip` | app/src/main/java/com/zybooks/inventoryproject/User.java:90-94 | decoding the text two characters at a time gives back the bytes |
| `Users.HexInjective` | app/src/main/java/com/zybooks/inventoryproject/User.java:90-94 | distinct byte sequences give distinct texts |
| `Users.HexPieceIsHexOfByte` | app/src/main/java/com/zybooks/inventoryproject/User.java:92 | `Integer.toString((b & 0xff) + 0x100, 16)` has three characters, and dropping the first leaves the byte's two lower-case hex digits |
| `Users.PasswordHash` | app/src/main/java/com/zybooks/inventoryproject/User.java:80-98 | a hash exists iff SHA-256 is available, and it is then 64 characters long |
| `Users.FieldsEqual` | app/src/main/java/com/zybooks/inventoryproject/User.java:114 | the expression throws iff the receiver's username is null, or the usernames match and the receiver's hash is null; otherwise it is true iff both usernames and both hashes are equal |
| `Users.User.constructor` | app/src/main/java/com/zybooks/inventoryproject/User.java:37-47 | `id`, `user` and `password` are stored as given; a non-null hash is kept verbatim; a null one becomes the hex of SHA-256 of the password, or stays null when SHA-256 is unavailable |
| `Users.User.ComputeHash` | app/src/main/java/com/zybooks/inventoryproject/User.java:80-98 | the byte-by-byte loop produces exactly the hex text of the digest of the password's bytes; with SHA-256 unavailable the hash stays null |
| `Users.User.Equals` | app/src/main/java/com/zybooks/inventoryproject/User.java:108-115 | false for null and for non-`User` objects; with non-null username and hash, true iff the other user's username and hash are equal; true against itself; against a different `User` the result is `FieldsEqual`, which throws exactly when the receiver's username is null, or the usernames match and its hash is null |
| `Users.EqualsReflexive` | app/src/main/java/com/zybooks/inventoryproject/User.java:110 | every user equals itself, even with null fields |
| `Users.EqualsSymmetric` | app/src/main/java/com/zybooks/inventoryproject/User.java:108-115 | with non-null usernames and hashes, `a.equals(b)` and `b.equals(a)` agree |
| `Users.EqualsTransitive` | app/src/main/java/com/zybooks/inventoryproject/User.java:108-115 | with non-null usernames and hashes, equality is transitive |
| `Users.EqualsIgnoresIdAndPassword` | app/src/main/java/com/zybooks/inventoryproject/User.java:108-115 | two users with the same non-null username and hash compare the same against every object, whatever their ids and passwords |
| `Users.EqualUsersHaveEqualHashCodes` | app/src/main/java/com/zybooks/inventoryproject/User.java:123-127 | users that are equal have equal `hashCode`s, for any `String.hashCode` |
| `Users.User.HashCode` | app/src/main/java/com/zybooks/inventoryproject/User.java:123-127 | `31 * result + result1`, with Java's wrap-around after each operation, agrees with the exact value modulo 2^32; two null fields give 0 |
| `Login.FindUsername` | app/src/main/java/com/zybooks/inventoryproject/LoginActivity.java:89-95 | the duplicate flag is set iff some listed user's username equals the entered one |
| `Login.Decide` | app/src/main/java/com/zybooks/inventoryproject/LoginActivity.java:74-139 | Register mode ends in one of the four registration outcomes and Login mode in a login, a rejection or the crash; passwords differ exactly when the click makes no store call; the first store call is the listing in Register mode and the lookup in Login mode |
| `Login.MismatchedPasswordsSkipStore` | app/src/main/java/com/zybooks/inventoryproject/LoginActivity.java:83 | in Register mode, differing passwords give "Supplied passwords not equal." and no store call |
| `Login.DuplicateUsernameBlocksInsert` | app/src/main/java/com/zybooks/inventoryproject/LoginActivity.java:88-98 | with matching passwords the name is refused iff a listed user has it; a refused name reaches the store only as the listing, never as an insert |
| `Login.InsertOnlyWhenChecksPass` | app/src/main/java/com/zybooks/inventoryproject/LoginActivity.java:98-113 | a click inserts at most once, and the insert happens iff the mode is Register, the passwords match and the name is free; the inserted row has the entered name and the password's hash; registration succeeds iff the row id is positive |
| `Login.FailedListingPassesDuplicateCheck` | app/src/main/java/com/zybooks/inventoryproject/LoginActivity.java:201-219 | when listing the users throws, `getUsers` gives the empty list, so the duplicate check passes and the insert is still attempted |
| `Login.LoginSucceedsIffCredentialsMatch` | app/src/main/java/com/zybooks/inventoryproject/LoginActivity.java:124-139 | Login mode makes only the lookup call; it succeeds iff a row came back with the entered username and the hash of the entered password; the id handed on is the row's; a crash needs SHA-256 to be unavailable |
| `Login.MissingRowRejectsLogin` | app/src/main/java/com/zybooks/inventoryproject/LoginActivity.java:150-168 | when the lookup throws or finds no row, `getDbUser` gives null and the login is rejected with "Incorrect, please try again.", after exactly the lookup call |
| `Login.FailedInsertReportsFailure` | app/src/main/java/com/zybooks/inventoryproject/LoginActivity.java:176-194 | when the insert throws or gives a row id that is not positive, `createUser` gives false: the insert was made and the click ends with "Failure, please try again." |
| `Login.RegisterThenLogin` | app/src/main/java/com/zybooks/inventoryproject/LoginActivity.java:77-139 | after a successful registration, a login with the same credentials succeeds once the store hands back the inserted row |
| `Login.LoginScreen.constructor` | app/src/main/java/com/zybooks/inventoryproject/LoginActivity.java:57-63 | the screen starts in Login mode with empty fields, no Toasts, no launch and no store call |
| `Login.LoginScreen.Type` | app/src/main/java/com/zybooks/inventoryproject/LoginActivity.java:79-80 | editing sets the three text fields and nothing else |
| `Login.LoginScreen.OnAccountClick` | app/src/main/java/com/zybooks/inventoryproject/LoginActivity.java:66-71 | the account link switches the button to Register mode and changes nothing else |
| `Login.LoginScreen.OnSubmitClick` | app/src/main/java/com/zybooks/inventoryproject/LoginActivity.java:74-141 | the click makes exactly the store calls, Toast, launch and crash that `Decide` gives; a successful registration switches back to Login mode and clears the three fields; every other outcome leaves mode and fields unchanged |

## Left out

- Android views, view visibility, Toast and Intent mechanics, executors and threads. Toasts and launches are logs of messages and user ids. A background call that fails is the answer `Threw`.
- SHA-256, `String.getBytes()` (with the platform's default charset) and `String.hashCode` are not computed. They are parameters (`Crypto`, `stringHash`).
- `InventoryRepo`'s SQL behaviour is not part of this model. The store's answers are free inputs. In particular, the model does not assume the looked-up row has the entered name, just as the handler does not.
- A `null` title, description or typed text is not modelled, because Dafny strings are never null. The source can produce one: a remote item whose JSON has no title, or a local row with a NULL title or description column. Rebuilding such an item calls `getSubstring` on null, which throws a `NullPointerException` the model does not show.
- Users.User.constructor: its requires excludes the single case where the Java constructor throws. That case is a null hash, SHA-256 available and a null password.
- Users.User.Equals: the Java code returns true for the same object. The model reproduces this with a reference comparison, because `User` is a class.
- Login.LoginScreen.OnSubmitClick: an exception escaping the handler sets `crashed` and logs nothing further. The process ending is not modelled.
- The texts of `R.string.register` and `R.string.login`, and the submit button's initial text, come from resource and layout files that are not part of this model. They are taken to be "Register" and "Login", and the screen is taken to start in Login mode (`Login.LoginScreen.constructor`).
- The getters of `InventoryItem` and `User` only return fields, and the model reads the fields directly. `MainActivity`, `InventoryRepo`, `InventoryDatabase`, `RemoteRepo` and `InventoryItemAdapter` are not part of this model.
- The `onQuantityZero` callback's own effect (the out-of-stock Toast) is not modelled. Only its delivery is logged.
- Inventory.Substring: lengths and prefixes count Unicode scalar values, while Java's `length()` and `substring` count UTF-16 code units. The two agree only for text in the Basic Multilingual Plane, which the model takes all text to be. A character outside it, such as an emoji, counts once here and twice in Java. A cut that splits a surrogate pair cannot be expressed.
- Inventory.InventoryItem.SetTitle: the limit of 20 counts Unicode scalar values, not UTF-16 code units, as for `Inventory.Substring`.
- Inventory.InventoryItem.SetDescription: the limit of 40 counts Unicode scalar values, not UTF-16 code units, as for `Inventory.Substring`.
- Items that Gson builds from JSON in `RemoteRepo` bypass the constructor and the setters, so they can have a negative quantity or an over-long title. The quantity and text methods do not require the bounds, so they model such items too. The bounds are promised only for items built by the constructor and kept by the mutators.
