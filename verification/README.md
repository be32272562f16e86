# mayapyUtils core, modelled in Dafny

mayapyUtils is a set of Python 2 helpers for Autodesk Maya. This project models the parts of it that are
plain logic rather than calls into Maya:

- **The socket protocol** shared by the in-Maya server (`ServerBase`) and the external
  client (`ClientBase`) in `pyhelper.py`. A message is a decimal byte-length header of
  `HEADER_SIZE` (10) characters followed by a JSON body.
  - The server pads its header with zeros and the client pads with spaces.
  - The server's `read` runs once per `readyRead` notification. Its framing state is
    held in locals.
  - The client's `recv` loops until a timeout.
- **The constant tables of `static.py`.** These are the 17-joint VideoPose3D skeleton
  (pairs, names, reversed names, chains, skips) and the COCO pairs. `aimocap.py`'s
  `key_skips` is modelled alongside them.
- **The pure parts of `pose2maya.py`:**
  - the frames × joints × channels reshape and the rule for which joints get rotation keys;
  - the "which child does a joint aim at" lookup of `create_skeleton`;
  - the name-suffix joint lookup of `VideoPose3D_Skeleton`;
  - its sorted pair table and the pairs `_orientate` visits.
- **The pure parts of `righelper.py`:**
  - `joint_search` (match joints by the digits in their names);
  - `get_key_ranges` (the last key of each run of equal values);
  - the window arithmetic of `unchanging_ranges`.
- **The name helpers:**
  - `prefix_name` from `mahelper.py`, with Python 2's ASCII `str.title`;
  - `get_padded_names`, `flatten` and `basename_plus` from `pyhelper.py`.

Each module follows one part of the program:

| module | file | models |
|---|---|---|
| `Results` | results.dfy | `Option`, Python exceptions as `PyError`, `Result` |
| `Text` | text.dfy | byte strings, ASCII decode/encode, `str(n)`, `int(s)` for `str` and for ASCII `unicode`, `zfill`, `"{0:10d}"` |
| `Fields` | fields.dfy | `str.split`, `split(sep)[-1]`, `rsplit(sep, 2)[1]` |
| `Framing` | framing.dfy | the protocol constants and both header formats |
| `Server` | server.dfy | `ServerBase.read` / `write` / `write_error` |
| `Reassembly` | reassembly.dfy | the server read loop with its state kept across deliveries |
| `Client` | client.dfy | `ClientBase.send` / `recv` |
| `Topology` | topology.dfy | `static.py`, `key_skips` |
| `Pose` | pose.dfy | `pose2maya.py` |
| `Rig` | rig.dfy | `righelper.py` |
| `Names` | names.dfy | `str.title`, `prefix_name`, `get_padded_names` |
| `Flatten` | flatten.dfy | `flatten` |
| `Paths` | paths.dfy | `os.path.split`, `os.path.splitext`, `basename_plus` |

The host is turned into parameters:

- The bytes that arrive on a socket are a sequence of byte strings: one per `readyRead`
  delivery on the server side, or a stream plus a chunk schedule on the client side.
  - The length of the schedule stands for the client's timeout.
- `QByteArray.toInt`, `json.loads` and `json.dumps` are parameters.
- Maya scene queries become plain data:
  - joint names;
  - per-frame joint coordinate counts;
  - key lists;
  - the key counts `get_keyframe_len` returns.

## Model

| member | source | states |
|---|---|---|
| Text.DecodeEncode | src/mayapyUtils/pyhelper.py:245 | Decoding the ASCII encoding of a string gives the string back. |
| Text.DigitsValueOfNatToString | src/mayapyUtils/pyhelper.py:241 | The decimal digits of `str(n)` read back as `n`. |
| Text.NatToStringLength | src/mayapyUtils/pyhelper.py:93 | `str(n)` has at most k characters exactly when n < 10^k. |
| Text.PyIntZeroPadded | src/mayapyUtils/pyhelper.py:332 | `int()` reads any number of leading zeros before `str(n)` back as `n`. |
| Text.PyIntSpacePadded | src/mayapyUtils/pyhelper.py:332 | `int()` reads any number of leading spaces before `str(n)` back as `n`. |
| Text.PyIntSignedSpaces | src/mayapyUtils/pyhelper.py:332 | `int()` skips whitespace after the sign too: a sign, any run of spaces and `str(n)` read back as `n` or `-n`. |
| Text.PyIntRejects | src/mayapyUtils/pose2maya.py:421-422 | `int()` of a byte string rejects a string that starts with something other than whitespace, a sign or a digit. |
| Text.PyIntUnicodePadded | src/mayapyUtils/pyhelper.py:328-332 | `int()` of a `unicode` string first turns every unicode whitespace character into a space. Any run of it before `str(n)` reads back as `n`, including the separators U+001C to U+001F. |
| Text.PyIntUnicodeRejects | src/mayapyUtils/pyhelper.py:328-332 | `int()` of a `unicode` string rejects one that starts with something other than unicode whitespace, a sign or a digit. |
| Text.SeparatorReaders | src/mayapyUtils/pyhelper.py:328-332 | The two readers differ on the separators: `int("\x1c5")` raises for a byte string and gives 5 for a `unicode` string. |
| Text.ZFill | src/mayapyUtils/pyhelper.py:241-242 | `zfill` pads to the width, and leaves a string that is already that wide unchanged. The padding is all `'0'`. It goes after a leading sign, which stays first, and the rest of the string follows unchanged. |
| Text.FormatWidth | src/mayapyUtils/pyhelper.py:296 | `"{0:10d}"` is at least the width and ends with `str(n)`. Everything before `str(n)` is a space. |
| Framing.ServerHeader | src/mayapyUtils/pyhelper.py:241-242 | The server header is all ASCII digits and at least `HEADER_SIZE` wide. |
| Framing.ServerHeaderWidth | src/mayapyUtils/pyhelper.py:241-242 | The server header is exactly 10 wide if and only if the body length is at most 10^10 - 1. |
| Framing.ClientHeaderWidth | src/mayapyUtils/pyhelper.py:296 | The client header is exactly 10 wide if and only if the body length is at most 10^10 - 1. |
| Framing.WideHeaderMisread | src/mayapyUtils/pyhelper.py:326-333 | Ten digits never read back as a length too wide for ten digits. |
| Framing.ServerFrameHeader | src/mayapyUtils/pyhelper.py:237-247 | The first 10 bytes of a server frame are ASCII digits. `int()` reads them as the body length exactly when the length fits, and the body follows the header. |
| Framing.ClientFrameHeader | src/mayapyUtils/pyhelper.py:292-301 | The client header is the length right-aligned with spaces. `int()` reads it as the body length exactly when the length fits, and the body follows. |
| Framing.Write | src/mayapyUtils/pyhelper.py:237-247 | Nothing is written unless the socket is connected. Otherwise the frame ends with the body and is `HEADER_SIZE` + body length long when the length fits. |
| Topology.StaticConstants | src/mayapyUtils/static.py:5-15 | static.py repeats pyhelper.py's host, port and header size. Every COCO pair index is one of the 18 keypoints. |
| Topology.ItemsMapLookup | src/mayapyUtils/static.py:23-27 | A dict literal with distinct keys sends each key to its own value. |
| Topology.ItemsInverseExact | src/mayapyUtils/static.py:29 | With distinct keys and values, `{v: k for k, v in d.items()}` is the exact inverse of `d`. |
| Topology.RootedTreeChildren | src/mayapyUtils/static.py:17-21 | In a parents-first tree over n joints, every joint except the root is the child of exactly one pair, and the root is the child of none. |
| Topology.TreeChildrenAll | src/mayapyUtils/static.py:17-21 | The children of a parents-first tree over n joints are exactly the joints 1..n-1. |
| Topology.VideoPoseTree | src/mayapyUtils/static.py:17-21 | `VideoPosePairs` is a tree over the 17 joints rooted at the hip. |
| Topology.VideoPoseParentsFirst | src/mayapyUtils/static.py:17-21 | Every pair's parent is the root or the child of an earlier pair. |
| Topology.VideoPoseLeaves | src/mayapyUtils/aimocap.py:243 | The joints that head no pair are exactly `key_skips`. |
| Topology.VideoPoseNamesInverse | src/mayapyUtils/static.py:23-29 | The names dict has keys 0..16 and distinct names, so `VideoPoseNamesRev` is its exact inverse. |
| Topology.ChainsFollowTree | src/mayapyUtils/static.py:68 | Consecutive joints of each chain are a tree pair, and together the chains cover all 17 joints. |
| Topology.SkipsAreChainHeads | src/mayapyUtils/static.py:68-70 | A joint is in `Skips` if and only if it heads a chain. |
| Client.Received | src/mayapyUtils/pyhelper.py:317-320 | One `recv` call takes at most `bytes_remaining` bytes, and they are the next bytes of the stream. It takes nothing when `bytes_remaining` is not positive (`recv(0)` returns nothing and a negative size raises) or exceeds 2147483647 (Python 2 reads the size as a C `int` and raises `OverflowError`). The bare `except` swallows both errors. |
| Client.RecvSound | src/mayapyUtils/pyhelper.py:308-339 | For any chunking, `recv` either times out or returns the reference reading of the first frame, and it never reads past that frame. The reference reads the header with `int()` of the decoded `unicode` text. |
| Client.RecvComplete | src/mayapyUtils/pyhelper.py:308-339 | With as many non-empty deliveries as the frame has bytes, `recv` returns the reference reading, whatever the chunk sizes. The reference owes a body only for a length from 1 to 2147483647. |
| Client.RecvServerFrame | src/mayapyUtils/pyhelper.py:308-339 | On a server frame followed by anything else, `recv` takes exactly header and body and returns the decoded body, or times out. A body longer than 2147483647 bytes is never requested: `recv` takes the header alone and times out. |
| Client.RecvRoundTrip | src/mayapyUtils/pyhelper.py:308-339 | A message the server encoded is the message the client returns, given a codec that round-trips and enough deliveries, when the encoding is at most 2147483647 bytes. A longer one ends in the timeout. |
| Client.RecvBadHeader | src/mayapyUtils/pyhelper.py:328-333 | A header whose decoded `unicode` text is not an integer gives `ValueError` once ten bytes have arrived, and only a timeout before that. Whitespace here is unicode whitespace, U+001C to U+001F included, and it may also follow the sign. |
| Client.RecvTextHeader | src/mayapyUtils/pyhelper.py:308-339 | Any ten header characters whose `unicode` `int()` is the body length announce the body, and `recv` returns it. A length above 2147483647 cannot be requested, and the call times out. |
| Client.RecvSeparatorHeader | src/mayapyUtils/pyhelper.py:328-332 | A header of nine U+001C separators and `5` announces a five-byte body, which `recv` returns. |
| Client.RecvNonPositiveHeader | src/mayapyUtils/pyhelper.py:312-333 | A header that announces zero or a negative length never yields a message: `recv` times out. |
| Client.RecvOversizedHeader | src/mayapyUtils/pyhelper.py:317-339 | A header that announces more than 2147483647 never yields a message. Every `recv(bytes_remaining)` raises `OverflowError`, which is swallowed, so only the header is taken and the call times out. |
| Client.RecvIncomplete | src/mayapyUtils/pyhelper.py:315-339 | A stream with no complete frame always ends in the timeout's `RuntimeError`. |
| Client.StuckTimesOut | src/mayapyUtils/pyhelper.py:312-333 | Once the byte count owed is not positive or exceeds a C `int`, `recv` takes nothing more and ends in the timeout's `RuntimeError`. |
| Client.Send | src/mayapyUtils/pyhelper.py:292-306 | What goes out is always a prefix of the frame. A reply is read exactly when the socket takes the whole frame, and that reply is what `recv` returns. Otherwise exactly the bytes the socket took are sent and `None` is returned. A frame that fits has a header that `int()` reads as the body length, followed by the body. |
| Client.SendRoundTrip | src/mayapyUtils/pyhelper.py:292-339 | A request that goes out whole, answered by a server frame carrying an encoded message, returns that message once enough bytes have arrived. This holds when the reply is at most 2147483647 bytes; a longer one ends in the timeout. |
| Server.ReadLoop | src/mayapyUtils/pyhelper.py:204-235 | One `read` only adds replies, and they are only `Success` replies followed by at most one `Invalid Header`, which empties the socket. What it leaves unread is a suffix of the input. How many `Success` replies there are is stated by `ReadOneFrame`, `ReadFrames` and `ReadWholeFrames`. |
| Server.ReadBody | src/mayapyUtils/pyhelper.py:221-235 | The body block keeps the same well-formedness and suffix guarantees. |
| Server.ReadOneFrame | src/mayapyUtils/pyhelper.py:204-235 | A valid frame at a header position earns exactly one `Success`, and reading continues after it. |
| Server.ReadFrames | src/mayapyUtils/pyhelper.py:204-235 | Several valid frames in one delivery each earn one `Success`, in order. |
| Server.ReadWholeFrames | src/mayapyUtils/pyhelper.py:204-235 | A delivery made only of valid frames gets one `Success` per frame and nothing else. |
| Server.ReadInvalidHeader | src/mayapyUtils/pyhelper.py:210-219 | An unreadable header after valid frames: those frames are answered, one `Invalid Header` failure follows, and the rest is discarded. |
| Server.ReadNonPositiveHeader | src/mayapyUtils/pyhelper.py:210-222 | A header announcing zero or less produces no reply, and the next ten bytes are read as a header. |
| Server.ReplyIgnoresRequest | src/mayapyUtils/pyhelper.py:227-233 | Every accepted body earns the same `{"success": True}`, whatever the request says. |
| Server.NoStateAcrossDeliveries | src/mayapyUtils/pyhelper.py:204-206 | After a `read` that returned normally, the next delivery is read as if it were the first. |
| Server.SplitBodyNotReassembled | src/mayapyUtils/pyhelper.py:204-235 | A frame whose body is split over two deliveries gets no reply for the first part, and the second part is parsed as if a header started there. |
| Server.Wire | src/mayapyUtils/pyhelper.py:249-254 | Every reply written, failures included, puts at least a header's worth of bytes on the wire. |
| Reassembly.ChunkingIrrelevant | src/mayapyUtils/pyhelper.py:204-235 | In the corrected loop, delivery boundaries do not matter: a connection that never hits an error ends as if all its bytes had arrived at once. |
| Reassembly.FragmentedDelivery | src/mayapyUtils/pyhelper.py:204-235 | However a stream of valid frames is cut into deliveries, each frame gets exactly one `Success`. |
| Reassembly.AgreesOnWholeFrames | src/mayapyUtils/pyhelper.py:204-235 | On a single delivery of whole frames, the corrected loop and `read` give the same replies. |
| Reassembly.PingSplitAsWritten | src/mayapyUtils/pyhelper.py:204-235 | As written: a ping frame cut after 8 body bytes is answered with `Invalid Header`. |
| Reassembly.PingSplitReassembled | src/mayapyUtils/pyhelper.py:204-235 | Corrected: the same two deliveries earn one `Success`. |
| Reassembly.SplitFrameReassembled | src/mayapyUtils/pyhelper.py:204-235 | Corrected: a valid frame cut anywhere into two deliveries earns exactly one `Success`. |
| Fields.Split | src/mayapyUtils/mahelper.py:275 | `split(sep)` gives one more field than there are separators, and no field holds a separator. |
| Fields.JoinSplit | src/mayapyUtils/mahelper.py:275 | Joining the fields of `split` gives the string back. |
| Fields.SplitJoin | src/mayapyUtils/mahelper.py:275 | Splitting a join of separator-free fields gives the fields back. |
| Fields.SplitSingle | src/mayapyUtils/mahelper.py:275 | A string without the separator splits into itself alone. |
| Fields.SplitAppend | src/mayapyUtils/pose2maya.py:421 | Splitting around one separator splits the two sides independently and concatenates the fields. |
| Fields.LastField | src/mayapyUtils/righelper.py:29-30 | `split(sep)[-1]` is a separator-free suffix preceded by a separator, unless it is the whole string. |
| Fields.RSplitSecond | src/mayapyUtils/pose2maya.py:421 | `rsplit(sep, 2)[1]` raises `IndexError` exactly when there is no separator. |
| Fields.RSplitSecondOf | src/mayapyUtils/pose2maya.py:421 | On `pre_m_l` with separator-free `m` and `l`, `rsplit(sep, 2)[1]` is `m`, whatever `pre` holds. |
| Pose.AddFrame | src/mayapyUtils/pose2maya.py:286-289 | Appending one frame fails with `IndexError` exactly when a value has no slot in the 17 × 3 table. |
| Pose.SplitRotations | src/mayapyUtils/pose2maya.py:277-292 | The reshape fails with `IndexError` exactly when some value has no slot. Otherwise each joint/channel list holds that channel's values in frame order. |
| Pose.SplitRotationsTranspose | src/mayapyUtils/pose2maya.py:277-292 | On n × 17 × 3 input, the reshape is a transpose: value f of channel i of joint n is `rots[f][n][i]`. |
| Pose.ChannelEmpty | src/mayapyUtils/pose2maya.py:285-289 | A channel list stays empty exactly when no frame carries that channel. |
| Pose.SetRotations | src/mayapyUtils/pose2maya.py:294-301 | A joint is keyed if and only if one of its channel lists is non-empty. Each key uses the length of joint 0's X channel, and joints are keyed in increasing order. |
| Pose.KeyedAfterSplit | src/mayapyUtils/pose2maya.py:294-301 | After the reshape, joint n is keyed exactly when some frame carries a channel for it. |
| Pose.ChildOf | src/mayapyUtils/pose2maya.py:204-207 | The child lookup succeeds exactly when the joint heads a pair, and fails otherwise with `IndexError`. The root takes its last pair and every other joint its first. |
| Pose.ChildOfFirst | src/mayapyUtils/pose2maya.py:205-207 | A joint other than the root aims at the child of its first pair. |
| Pose.ChildOfLast | src/mayapyUtils/pose2maya.py:205-207 | The root aims at the child of its last pair. |
| Pose.ChildBounded | src/mayapyUtils/pose2maya.py:206-209 | The child found is one the table names, so it is within the table's bound. |
| Pose.HipChild | src/mayapyUtils/pose2maya.py:180 | On `VideoPosePairs` the hip aims at the upper spine (7). |
| Pose.SpineChild | src/mayapyUtils/pose2maya.py:180 | On `VideoPosePairs` the lower spine aims at the neck (9). |
| Pose.LeafChildren | src/mayapyUtils/pose2maya.py:204-228 | On `VideoPosePairs` the lookup fails exactly for the end joints `key_skips`. |
| Pose.FrameKeys | src/mayapyUtils/pose2maya.py:199-228 | For one frame, one of joints 0 to 16 is keyed if and only if its rotation can be taken. A frame with more than 17 joints raises `IndexError` outside the `try`. The keys of joints 0 to 16 are set before that and are kept. |
| Pose.CreateSkeletonKeys | src/mayapyUtils/pose2maya.py:199-228 | The call raises `IndexError` exactly when some frame has more than 17 joints. (t, m) is keyed if and only if no frame before t - 1 has more than 17 joints, m < 17, and frame t - 1 keys joint m. So the keys set before the exception, up to the first such frame, are kept. |
| Pose.RotationKeyedVideoPose | src/mayapyUtils/pose2maya.py:204-228 | On a full 17-joint frame, a joint is keyed if and only if it is not an end joint. |
| Pose.CreateSkeletonVideoPose | src/mayapyUtils/pose2maya.py:199-228 | Over full frames, every frame keys exactly the non-end joints, frame f at time f + 1. |
| Pose.CreateSkeletonUniform | src/mayapyUtils/pose2maya.py:199-228 | When every frame keys the same joints, the keys are those joints at every time. |
| Pose.Searched | src/mayapyUtils/pose2maya.py:412-418 | The list searched is the projections if asked for, else the drivers if asked for, else the joints. |
| Pose.NameNumber | src/mayapyUtils/pose2maya.py:421 | A name with no underscore raises `IndexError`. |
| Pose.FindJoint | src/mayapyUtils/pose2maya.py:420-423 | The result is `None` exactly when every name parses to a different number. Otherwise it is the outcome at the first name where the loop stops: that name, or the exception. |
| Pose.JointNameNumber | src/mayapyUtils/pose2maya.py:439-440 | A name `_skeleton` builds reads back as its joint id when the suffix has no underscore. |
| Pose.JntLookup | src/mayapyUtils/pose2maya.py:412-423 | `None` if and only if every searched name carries a number other than `idx`. The first name that `int()` cannot read or that carries `idx` decides the outcome. A name returned comes from the searched list and carries `idx`. |
| Pose.JntLookupSkeleton | src/mayapyUtils/pose2maya.py:412-470 | On the lists `_skeleton` builds, `_jnt_lookup` finds joint `idx` or its driver when it exists. It returns `None` otherwise, and always for the empty projection list. |
| Pose.SuffixWithUnderscore | src/mayapyUtils/pose2maya.py:421-422 | A suffix with an underscore shifts the field read: `jnt_0_vp_3d` raises `ValueError`. |
| Pose.SortedPairsSorted | src/mayapyUtils/pose2maya.py:374 | The sorted table is strictly increasing and holds the same pairs as `VideoPosePairs`. |
| Pose.Oriented | src/mayapyUtils/pose2maya.py:503-508 | `_orientate` visits exactly the pairs whose parent is not skipped. |
| Pose.OrientedVideoPose | src/mayapyUtils/pose2maya.py:503-508 | On the sorted table those are exactly the pairs of the legs and arms. |
| Pose.LimbParents | src/mayapyUtils/pose2maya.py:504 | A skeleton pair escapes the skip list exactly when its parent is a limb joint. |
| Rig.Digits | src/mayapyUtils/righelper.py:32 | The filtered name is all digits and no longer than the name. It is the name itself when that is all digits, and empty exactly when the name has no digit. |
| Rig.DigitsAppend | src/mayapyUtils/righelper.py:32 | The filter keeps each part's digits in order. With `Digits`'s cases, the result is exactly the digits of the name, in the order they occur. |
| Rig.ShortName | src/mayapyUtils/righelper.py:29-30 | The short name has no `\|`, and a name without one is kept whole. |
| Rig.JointSearch | src/mayapyUtils/righelper.py:14-34 | The loop returns, for each id in order, the matching joints in order. |
| Rig.MatchJoints | src/mayapyUtils/righelper.py:28-33 | The inner loop returns the matching joints for one id, in order. |
| Rig.MatchingMembers | src/mayapyUtils/righelper.py:28-33 | A joint is among the matches for an id if and only if it is one of the joints and matches. |
| Rig.SearchConcat | src/mayapyUtils/righelper.py:26-34 | Searching two lists of ids is searching each and concatenating, so a repeated id repeats its matches. |
| Rig.SearchMembers | src/mayapyUtils/righelper.py:14-34 | A joint is returned if and only if it is one of the joints and matches one of the ids. |
| Rig.SearchNone | src/mayapyUtils/righelper.py:14-34 | With no joint matching any id, the result is empty. |
| Rig.ScatteredDigitsMatch | src/mayapyUtils/righelper.py:32 | All digits of the name count, wherever they stand: any name shaped like `l1_arm2` is joint 12. |
| Rig.LeadingZeroNoMatch | src/mayapyUtils/righelper.py:32 | The digits must spell `str(idx)` exactly, so a name shaped like `jnt_012` is not joint 12. |
| Rig.ShortNameOfPath | src/mayapyUtils/righelper.py:29-30 | Only the last segment of a DAG path is read. |
| Rig.PathSegmentMatch | src/mayapyUtils/righelper.py:29-32 | A path like `rig3\|l1_arm2` is joint 12, whatever digits the parent path holds. |
| Rig.NegativeNeverMatches | src/mayapyUtils/righelper.py:32 | A negative id never matches, because `-` is not a digit. |
| Rig.GetKeyRanges | src/mayapyUtils/righelper.py:615-646 | No keys give no ranges, and one key raises `UnboundLocalError`. Otherwise the result is the run ends of every key but the last, which the loop never examines. |
| Rig.RunEndsSnoc | src/mayapyUtils/righelper.py:628-644 | Appending a key extends the last run when its value is equal and starts a new one otherwise. |
| Rig.RunEndsAlternate | src/mayapyUtils/righelper.py:634-641 | Neighbouring ranges have different values. |
| Rig.RunEndsHead | src/mayapyUtils/righelper.py:634-641 | The first range has the first key's value. |
| Rig.RunEndsTimes | src/mayapyUtils/righelper.py:628-644 | With increasing key times, range ends have increasing times within the first and last key times. |
| Rig.RunEndsExamples | src/mayapyUtils/righelper.py:628-644 | Three equal keys give one range, and two blocks of two give two ranges. |
| Rig.Windows | src/mayapyUtils/righelper.py:694-708 | Every window has start ≤ end, and there is at most one per range. |
| Rig.WindowsFrom | src/mayapyUtils/righelper.py:694-708 | A window is emitted if and only if it comes from a range with more than two keys whose span leaves room. It lies strictly inside that range. |
| Rig.ShortRangesSkipped | src/mayapyUtils/righelper.py:697-698 | Ranges of at most two keys give no windows. |
| Rig.WindowsOrdered | src/mayapyUtils/righelper.py:700-708 | With increasing range times, the windows are disjoint, in order, and end before the last range's time. |
| Names.TitleSpec | src/mayapyUtils/mahelper.py:276 | Each character of `title()` depends only on itself and whether a letter precedes it. |
| Names.TitleCaseOnly | src/mayapyUtils/mahelper.py:276 | `title()` changes case and nothing else. |
| Names.TitleIdempotent | src/mayapyUtils/mahelper.py:276 | Applying `title()` twice is applying it once. |
| Names.TitleWordBoundaries | src/mayapyUtils/mahelper.py:279 | Words are runs of letters. An inner capital is lowered (`l_armJnt` becomes `L_Armjnt`), and a letter after a digit or underscore is raised. |
| Names.PrefixName | src/mayapyUtils/mahelper.py:263-281 | `prefix_name` raises `ValueError` exactly when the name has two or more colons. Otherwise the result is as long as prefix and name together. |
| Names.PrefixNameShapes | src/mayapyUtils/mahelper.py:274-279 | Without a namespace the prefix leads. With one, the namespace is kept and the prefix follows its colon, before the title-cased rest. |
| Names.PrefixNameCaseOnly | src/mayapyUtils/mahelper.py:274-279 | Read without case, the result is namespace, colon, prefix and the old name. |
| Names.PadNumber | src/mayapyUtils/pyhelper.py:97-98 | The padded number is digits that read back as the number. It is as wide as the padding, or as `str(num)` if that is wider. |
| Names.GetPaddedNames | src/mayapyUtils/pyhelper.py:90-102 | There is one name per number in `range(0, sequenceLen)`. |
| Names.PaddedNamesParse | src/mayapyUtils/pyhelper.py:90-102 | Name i is `name_` followed by digits whose value is i. |
| Names.PaddedNamesDistinct | src/mayapyUtils/pyhelper.py:90-102 | No two names are the same. |
| Names.PaddedNamesUniform | src/mayapyUtils/pyhelper.py:92-93 | With automatic padding, every name has the length of `name_` plus `str(sequenceLen)`. |
| Names.PaddedNamesNotTruncated | src/mayapyUtils/pyhelper.py:97-98 | A padding narrower than a number does not cut it, and automatic padding uses the width of `str(sequenceLen)`. |
| Flatten.Flatten | src/mayapyUtils/pyhelper.py:105-128 | Apart from the recursion limit (see Left out), the only failure `flatten` has is `IndexError`. |
| Flatten.FlattenLeaves | src/mayapyUtils/pyhelper.py:119-128 | Below the recursion limit, `flatten` fails exactly when an empty list, tuple or dict is reachable. Otherwise it returns every leaf in order, each key before its value. |
| Flatten.FlattenFlat | src/mayapyUtils/pyhelper.py:124-128 | A non-empty flat list flattens to itself. |
| Flatten.FlattenIdempotent | src/mayapyUtils/pyhelper.py:105-128 | Flattening the result of `flatten` again changes nothing. |
| Flatten.EmptyDictFails | src/mayapyUtils/pyhelper.py:121-125 | An empty dict fails even inside a list, while nested lists flatten to their leaves. |
| Paths.RFind | src/mayapyUtils/pyhelper.py:53 | The index of the last occurrence, or -1 when there is none. |
| Paths.RStrip | src/mayapyUtils/pyhelper.py:58-59 | `rstrip` removes the longest suffix of stripped characters and nothing else. |
| Paths.PathSplit | src/mayapyUtils/pyhelper.py:53 | The tail is the slash-free end of the path, the head is a prefix, and only slashes lie between them. The head is empty exactly when there is no slash. A head of nothing but slashes is kept whole; any other head loses its trailing slashes. |
| Paths.SlashHeads | src/mayapyUtils/pyhelper.py:53 | `"//x"` splits into `("//", "x")`, while `"a//x"` splits into `("a", "x")`. |
| Paths.SplitExt | src/mayapyUtils/pyhelper.py:54 | Root plus extension is the path. The extension starts with its only dot and holds no slash, so when there is one it is the suffix from the path's last dot. |
| Paths.SplitExtDotted | src/mayapyUtils/pyhelper.py:54 | There is an extension exactly when the last path component has a dot with a character other than a dot before it. |
| Paths.BasenamePlus | src/mayapyUtils/pyhelper.py:49-61 | The directory is the head of the split, and the name plus the extension is its tail. The extension is present exactly when the file name has a dot after a non-dot character. It then runs from the name's last dot. |
| Paths.PathSplitTail | src/mayapyUtils/pyhelper.py:53 | The tail is the last `/`-separated field. |
| Paths.PathSplitRejoins | src/mayapyUtils/pyhelper.py:53 | Head, a run of slashes and tail rebuild the path. |
| Paths.HiddenFileNoExt | src/mayapyUtils/pyhelper.py:54 | A name of leading dots and a dot-free rest has no extension. |
| Paths.NoDigitsParts | src/mayapyUtils/pyhelper.py:57-59 | The digit-stripped name is `None` exactly when the name does not end in a digit. Otherwise it is the name minus its trailing digits. |
| Paths.SequenceFrame | src/mayapyUtils/pyhelper.py:49-61 | For `dir/stemNNN.ext` the parts are `stemNNN`, `stem`, `dir` and `.ext`. |

## Left out

- Maya is left out: `cmds` and `OpenMaya` calls, joint creation, constraints and
  `setKeyframe` itself. Key-setting is modelled as the list of keys that would be set.
- `_get_rotation` and `make_rad` are left out. They compute angles in floating point, so
  `create_skeleton` is modelled only down to which joints get a rotation key.
  - Each point is reduced to how many coordinates it has.
- `set_attribute_keyframes`, `get_keyframe_len` and `listsplit_gap` are left out.
  - The windows take the key counts `get_keyframe_len` returns as a parameter (`lens`).
  - `unchanging_ranges` is modelled from line 694 on, for one curve.
  - The `animCurve` queries and the collection per node are host calls.
- Rig.GetKeyRanges: key times are integers. A `None` key value is not modelled: for the
  first key it would make `add` unbound in the `else` branch, which the model does not
  reproduce.
- Sockets, Qt signals, threads, `time()` and `sleep` are left out.
  - A client chunk schedule stands for the timing.
  - Each server delivery is one `readyRead`.
  - The handler dispatch and connection bookkeeping of the server classes are not modelled.
- The JSON grammar is left out. `json.loads` and `json.dumps` are parameters: a decoder
  to `Option`, or an accept predicate plus an encoder.
- `QByteArray.toInt` is a parameter. Its exact acceptance rules belong to Qt.
- Pose.CreateSkeletonKeys: the Maya calls are assumed not to raise. This includes
  frame 0's `cmds.xform(obj, t=mult_data, ws=True)` on a point that is not three
  coordinates long, which happens outside the `try`. The model keys such frames as usual,
  so "`IndexError` exactly when some frame has more than 17 joints" holds only under this
  assumption. The same applies to Pose.FrameKeys.
- Server.ReadLoop: an exception that escapes `read` (a `UnicodeDecodeError` from
  `.decode()`, a `ValueError` from `json.loads`) is reported, with the bytes left in the
  socket. What Qt does with the escaped exception is not modelled.
- Client.Send: `json.dumps` and its `TypeError` on unserialisable data are left out. The
  body is given already encoded. How many bytes the socket takes before `sendall` raises
  is a parameter.
- Flatten.Flatten: Python's recursion limit is not modelled. `flatten(src_list[1:])`
  recurses once per list item, so a list of about a thousand items raises
  `RuntimeError`. The exact depth depends on the caller's own stack depth. The model
  promises the result of a run that stays below the limit.
- Python 2 `unicode` strings are modelled only where `recv` parses its decoded header.
  There the text is ASCII by construction, and `int()` treats U+001C to U+001F as
  whitespace. Everywhere else only byte `str` is modelled, so `isdigit`, `isspace` and
  `title` are ASCII-only.
- Only POSIX paths are modelled: `os.path` as `posixpath`, not `ntpath`.
- `get_img_seq` and the other file-system helpers of pyhelper.py are left out (they call
  `scandir`).
- Flatten: objects with `__iter__` other than lists, tuples and dicts (sets, generators)
  are left out. A set would raise `TypeError` on `src_list[0]`. A dict is taken in its
  `items()` order, given as the entry sequence.
- The rest of aimocap.py (the processing pipeline that calls the model) is left out; only
  `key_skips` is modelled.
- The rest of righelper.py, mahelper.py and pose2maya.py (rig building, Maya-facing
  helpers) is not part of this model.

## Findings

| source | as written | input that shows it | evidently intended | confidence | as-written member | corrected member |
|---|---|---|---|---|---|---|
| src/mayapyUtils/pyhelper.py:204-235 | `bytes_remaining` and `json_data` are locals of `read`. A frame whose body arrives over two `readyRead` notifications loses its first part, and the second part is parsed as a header. | The ping frame `0000000015{"cmd": "ping"}` delivered as the header plus 8 body bytes, then the remaining 7 bytes. The tail `"ping"}` is answered with `Invalid Header`. | Header and body bytes accumulate across notifications until the frame is complete, so every valid frame earns one `Success` whatever the delivery sizes. | not executed | Server.SplitBodyNotReassembled, Reassembly.PingSplitAsWritten | Reassembly.FragmentedDelivery, Reassembly.PingSplitReassembled |
