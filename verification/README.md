# CrazyArcadeMojak: the parts that must not go wrong

CrazyArcadeMojak is a client and a server for a bomb-laying arcade game. This project models what the
two rely on and proves properties of it for every input, every run and every reachable state:

- **The wire codec.** `Wire` holds varints, tags and the five wire types of Protocol Buffers, as its
  encoding specification gives them (sections "Base 128 Varints", "Length-Delimited Records", "Packed
  Repeated Fields", "Last One Wins"); `Parsing` a plain parser that reads one record per step; `Struct`
  and `Protocol` the messages as values. `BlockObject`, `ExplodeObject` and `MyPlayerObject` are the
  generated classes themselves, with their parse loops, cached sizes and in-place merges, each proved to
  do what the plain parser and the values say. `ProtocolTheorems`, `ExplodeTheorems` and `Shrinking`
  (nothing read is longer when written again) prove the laws.
  `WireLayout` and `MessageLayout` say which bytes stand for what.
- **Frames and dispatch.** `Framing` and `TilemapFrames`: 16-bit sizes and ids around the codec.
- **The collision tracker.** `Collision` (runs as values), `CollisionEvents` (what an update tells) and
  `CollisionManagement` (the class).
- **Game state on the server.** `Lifecycle` (players), `OverlapLists` (the mutual lists of players and
  bombs), `Bombs` (fuses), and `ServerObjects`, the classes proved against all three.
- **Game state on the client.** `ObjectGrid` (scene, grid and id map as a value) and `ClientObjects`
  (the classes), `ExplosionCross`, `TilemapFile`.

Modules of functions say what the program computes; the modules with classes keep its form (loops,
fields updated in place, buffers written at a position) and are proved against them. A property that
turned out false of the code is stated with its exact condition, and a lemma shows an input that fails:

| property | exactly when | fails for |
|---|---|---|
| an `S_Explode` is read back | `ExplodeRoundTripIff` | `OversizedIdsLost` |
| a frame is delivered | `FrameDeliveredIff` | `LargestTilemapLost`, `OversizedBodiesLost` |
| a collider's events about itself alternate | `SelfEventsAlternateIff` | `DoubleRegistrationBreaks` |
| DEAD is for ever | `DeadStaysDeadIff` | `DeadPlayerRevived` |
| a step keeps scene, grid and ids in agreement | `DoKeepsIff` | `TileStepsBreak`, `IdStepsBreak` |
| a tile's middle lies in that tile | `TileToWorldAndBackIff` | the same lemma |

Conventions. Floats on the wire are their 32-bit patterns; timers and positions are exact rationals, cut
to integers only where the code casts. `int32` and `uint64` are bounded integers and every cast between
them is written out. A weak reference is a reference to an object whose `alive` field may be false.
Overlap tests, where a moving player ends up and what an explosion does to bombs are arguments.

Four places where the code does not do what one might expect:

- An id list that packs to more than 2147483631 bytes is written but cannot be read back.
- `SetMainState(TRAPPED)` from an explosion brings a DEAD player back (`Server/GameRoom.cpp:462`).
- The size of a body is cut to 16 bits. Where it is 65532 to 65535 modulo 65536, the send buffer is shorter
  than its own header; any other body of 65536 bytes or more is sent as so many zeros as the cut size says.
- A map object that is spawned on a taken cell, created off the grid (as `Tilemap::BuildMap` creates its
  blocks) or still there when a second `S_Tilemap` comes is no longer in the grid, and its release may
  clear the cell of another.

## Model

| member | source | states |
|---|---|---|
| Wire.VarintRoundTrip | CrazyArcadeMojak/Server/Protocol.pb.cc:2694-2700 | reading a written varint, whatever follows it, gives back the value and its exact length |
| Wire.Int32RoundTrip | CrazyArcadeMojak/Server/Protocol.pb.cc:2702-2708 | an `int32` survives sign extension to 64 bits and truncation; negative ones take 10 bytes |
| Wire.ReadPayloadEncoded | CrazyArcadeMojak/Server/Protocol.pb.cc:2760-2770 | every field of every wire type, nested groups included, is read back from its encoding with any suffix |
| WireLayout.VarintDigits | CrazyArcadeMojak/Server/Protocol.pb.cc:2694-2700 | each byte of a varint holds seven bits, the lowest first, and the continuation bit exactly before the last; no byte is wasted |
| WireLayout.DecodedDigits | CrazyArcadeMojak/Server/Protocol.pb.cc:2694-2700 | whatever is read as a varint, also one longer than needed, is made of just those bits |
| WireLayout.ReadsFailIff | CrazyArcadeMojak/Server/Protocol.pb.cc:2690-2695 | when no key, no value and no length can be read |
| WireLayout.LittleEndianDigits | CrazyArcadeMojak/Server/Protocol.pb.cc:1642-1646 | byte i of a fixed-width value is its i-th, lowest first |
| WireLayout.FromLittleEndianDigits | CrazyArcadeMojak/Server/Protocol.pb.cc:1642-1646 | and is read as that |
| WireLayout.CastsKeepLowBits | CrazyArcadeMojak/Server/Protocol.pb.cc:2702-2708 | the casts between 32 and 64 bits keep the low bits |
| WireLayout.FieldLayout | CrazyArcadeMojak/Server/Protocol.pb.cc:2779-2838 | the bytes of a field of each wire type |
| WireLayout.KeyEndsParse | CrazyArcadeMojak/Server/Protocol.pb.cc:2760-2766 | at which keys a parser stops or fails |
| WireLayout.CutFieldFails | CrazyArcadeMojak/Server/Protocol.pb.cc:2686-2777 | input that ends anywhere within a field, nested groups included, fails |
| WireLayout.OtherEndFails | CrazyArcadeMojak/Server/Protocol.pb.cc:2767-2770 | a group that ends with another number is none |
| Parsing.ParseEncodedField | CrazyArcadeMojak/Server/Protocol.pb.cc:2689-2776 | one encoded record in front of any input is parsed as that record followed by the rest |
| Parsing.ParseWritten | CrazyArcadeMojak/Server/Protocol.pb.cc:2779-2838 | what a serialiser writes, declared fields then unknown ones, is applied exactly, in front of any input |
| Struct.BlockReadBack | CrazyArcadeMojak/Server/Struct.pb.cc:752-866 | parsing a written `DestroyedBlockInfo` into any one merges the two |
| Struct.TileReadBack | CrazyArcadeMojak/Server/Struct.pb.cc:519-655 | the same for `TileInfo`, negative `int32` included |
| Struct.PlayerReadBack | CrazyArcadeMojak/Server/Struct.pb.cc:216-420 | the same for `PlayerInfo`, for every float bit pattern |
| MessageLayout.BlockWritten | CrazyArcadeMojak/Server/Struct.pb.cc:797-821 | the bytes of a `DestroyedBlockInfo`, field by field |
| MessageLayout.BlockRead | CrazyArcadeMojak/Server/Struct.pb.cc:752-795 | what each key of a `DestroyedBlockInfo` sets |
| MessageLayout.BlockKnows | CrazyArcadeMojak/Server/Struct.pb.cc:752-795 | exactly keys 8 and 16 are known |
| MessageLayout.TileWritten | CrazyArcadeMojak/Server/Struct.pb.cc:572-602 | the bytes of a `TileInfo`, field by field |
| MessageLayout.TileRead | CrazyArcadeMojak/Server/Struct.pb.cc:519-570 | what each key of a `TileInfo` sets |
| MessageLayout.TileKnows | CrazyArcadeMojak/Server/Struct.pb.cc:519-570 | exactly keys 8, 16 and 24 are known |
| MessageLayout.PlayerWritten | CrazyArcadeMojak/Server/Struct.pb.cc:285-335 | the bytes of a `PlayerInfo`, field by field |
| MessageLayout.PlayerRead | CrazyArcadeMojak/Server/Struct.pb.cc:216-283 | what each key of a `PlayerInfo` sets |
| MessageLayout.PlayerKnows | CrazyArcadeMojak/Server/Struct.pb.cc:216-283 | exactly keys 8, 21, 29, 32 and 40 are known |
| MessageLayout.ExplodeWritten | CrazyArcadeMojak/Server/Protocol.pb.cc:2779-2838 | the bytes of every `S_Explode`: which key stands for which field, in which order, and what is left out |
| MessageLayout.ExplodeRead | CrazyArcadeMojak/Server/Protocol.pb.cc:2692-2732 | what keys 8, 16, 24, 32, 40 and 64 set, for every value and in front of any input |
| MessageLayout.ExplodeListsRead | CrazyArcadeMojak/Server/Protocol.pb.cc:2733-2755 | key 50 adds a block of its own and key 66 a packed list of ids; a malformed one makes the parse fail |
| MessageLayout.ExplodeKnows | CrazyArcadeMojak/Server/Protocol.pb.cc:2686-2777 | no other key is known |
| MessageLayout.FourBytesRead | CrazyArcadeMojak/Server/Protocol.pb.cc:2702-2716 | 10 02 18 05 is up 2 and down 5 |
| MessageLayout.UnpackBehind | CrazyArcadeMojak/Server/Protocol.pb.cc:2745-2749 | ids in front of a packed list are in front of its ids, and a list that ends within one is none |
| MessageLayout.TilemapWritten | CrazyArcadeMojak/Server/Protocol.pb.cc:1990-2022 | the bytes of an `S_Tilemap`, field by field |
| MessageLayout.TilemapRead | CrazyArcadeMojak/Server/Protocol.pb.cc:1932-1988 | what each key of an `S_Tilemap` sets |
| MessageLayout.TilemapKnows | CrazyArcadeMojak/Server/Protocol.pb.cc:1932-1988 | exactly keys 8, 16 and 26 are known |
| MessageLayout.MyPlayerWritten | CrazyArcadeMojak/Server/Protocol.pb.cc:770-789 | the bytes of an `S_MyPlayer` |
| MessageLayout.MyPlayerRead | CrazyArcadeMojak/Server/Protocol.pb.cc:733-768 | key 10 is read into the submessage that is there, or an empty one |
| MessageLayout.MyPlayerKnows | CrazyArcadeMojak/Server/Protocol.pb.cc:733-768 | exactly key 10 is known |
| MessageLayout.ServerMoveWritten | CrazyArcadeMojak/Server/Protocol.pb.cc:1679-1735 | the bytes of an `S_Move`, field by field |
| MessageLayout.ServerMoveRead | CrazyArcadeMojak/Server/Protocol.pb.cc:1602-1677 | what each key of an `S_Move` sets |
| MessageLayout.ServerMoveKnows | CrazyArcadeMojak/Server/Protocol.pb.cc:1602-1677 | exactly keys 8, 16, 24, 37, 45 and 48 are known |
| MessageLayout.ClientMoveWritten | CrazyArcadeMojak/Server/Protocol.pb.cc:1362-1412 | the bytes of a `C_Move`, field by field |
| MessageLayout.ClientMoveRead | CrazyArcadeMojak/Server/Protocol.pb.cc:1293-1360 | what each key of a `C_Move` sets |
| MessageLayout.ClientMoveKnows | CrazyArcadeMojak/Server/Protocol.pb.cc:1293-1360 | exactly keys 8, 16, 24, 37 and 45 are known |
| Protocol.UnpackPacked | CrazyArcadeMojak/Server/Protocol.pb.cc:2745-2749 | a packed id list is unpacked to the same ids in order |
| ProtocolTheorems.ExplodeParseMerges | CrazyArcadeMojak/Server/Protocol.pb.cc:2686-2930 | parsing a written `S_Explode` and then any bytes continues from the merge of the two messages |
| ProtocolTheorems.ExplodeConcatenationMerges | CrazyArcadeMojak/Server/Protocol.pb.cc:2686-2930 | parsing one `S_Explode` written behind another gives exactly the second merged into the first |
| ProtocolTheorems.ExplodeRoundTrip | CrazyArcadeMojak/Server/Protocol.pb.cc:2686-2838 | parsing a serialised `S_Explode` consumes every byte, never fails and gives the same message |
| ProtocolTheorems.TilemapConcatenationMerges | CrazyArcadeMojak/Server/Protocol.pb.cc:1932-2075 | concatenation is merging, for `S_Tilemap` |
| ProtocolTheorems.TilemapRoundTrip | CrazyArcadeMojak/Server/Protocol.pb.cc:1932-2022 | round trip of `S_Tilemap` |
| ProtocolTheorems.MyPlayerConcatenationMerges | CrazyArcadeMojak/Server/Protocol.pb.cc:733-829 | concatenation is merging, for `S_MyPlayer`: the submessages merge recursively |
| ProtocolTheorems.MyPlayerRoundTrip | CrazyArcadeMojak/Server/Protocol.pb.cc:733-789 | round trip of `S_MyPlayer`, with and without a submessage |
| ProtocolTheorems.ServerMoveConcatenationMerges | CrazyArcadeMojak/Server/Protocol.pb.cc:1602-1828 | concatenation is merging, for `S_Move` |
| ProtocolTheorems.ServerMoveRoundTrip | CrazyArcadeMojak/Server/Protocol.pb.cc:1602-1735 | round trip of `S_Move`, for every float bit pattern |
| ProtocolTheorems.ClientMoveRoundTrip | CrazyArcadeMojak/Server/Protocol.pb.cc:1293-1412 | round trip of `C_Move`, unknown fields included |
| ProtocolTheorems.ClientMoveConcatenationMerges | CrazyArcadeMojak/Server/Protocol.pb.cc:1293-1497 | concatenation is merging, for `C_Move` |
| ProtocolTheorems.MoveForwardCompatible | CrazyArcadeMojak/Server/Protocol.pb.cc:1293-1412 | a serialised `S_Move` read as `C_Move` keeps the five shared fields, and field 6 as unknown; written again it is the identical bytes |
| ExplodeTheorems.ExplodeRoundTripIff | CrazyArcadeMojak/Server/Protocol.pb.cc:2745-2749 | an `S_Explode` within the 2 GB limit, unknown fields included, is read back exactly when its packed ids stay under the parser's size limit |
| ExplodeTheorems.PlainExplodeRoundTripIff | CrazyArcadeMojak/Server/Protocol.pb.cc:2745-2749 | so for every message as the server fills it |
| ExplodeTheorems.OversizedIdsLost | CrazyArcadeMojak/Server/Protocol.pb.cc:2745-2749 | 2147483632 zero ids are written within the limit, and parsing them fails |
| ExplodeTheorems.ChunkingIsInvisible | CrazyArcadeMojak/Server/Protocol.pb.cc:2745-2755 | however the ids are cut into packed chunks and single entries and mixed with other fields, the outcome is that of the other fields with all ids, in order |
| ExplodeTheorems.ExplodeNormalises | CrazyArcadeMojak/Server/Protocol.pb.cc:2686-2838 | any accepted byte string becomes a message whose serialisation is read back as that message, exactly when its packed ids stay under the parser's size limit, so for every input of at most that size; it is then at most 61 bytes longer |
| Shrinking.PayloadShrinks | CrazyArcadeMojak/Server/Protocol.pb.cc:2760-2770 | a field of any type, nested groups included, is never written in more bytes than it was read from |
| Shrinking.BlockShrinks | CrazyArcadeMojak/Server/Struct.pb.cc:752-821 | a parsed `DestroyedBlockInfo` is written in no more bytes than it was read from |
| Shrinking.ExplodeListsShrink | CrazyArcadeMojak/Server/Protocol.pb.cc:2733-2755 | so are the lists and the unknown fields of an `S_Explode`, whatever order and chunks they came in |
| BlockObject.DestroyedBlockInfo.InternalParse | CrazyArcadeMojak/Server/Struct.pb.cc:752-795 | the parse loop agrees with the plain parser on every byte string: message, failure, stopping point |
| BlockObject.DestroyedBlockInfo.ByteSizeLong | CrazyArcadeMojak/Server/Struct.pb.cc:823-843 | the size is the number of bytes written, and it is cached |
| BlockObject.DestroyedBlockInfo.InternalSerialize | CrazyArcadeMojak/Server/Struct.pb.cc:797-821 | writes exactly the encoding behind what was in the buffer, and nothing else |
| BlockObject.DestroyedBlockInfo.MergeFrom | CrazyArcadeMojak/Server/Struct.pb.cc:851-866 | the new value is the merge: non-zero fields overwrite, unknown fields are appended |
| ExplodeObject.S_Explode.Clear | CrazyArcadeMojak/Server/Protocol.pb.cc:2672-2684 | the value is the empty message |
| ExplodeObject.S_Explode.InternalParse | CrazyArcadeMojak/Server/Protocol.pb.cc:2686-2777 | the parse loop agrees with the plain one-record parser on every byte string, and terminates |
| ExplodeObject.S_Explode.ParseBlockRun | CrazyArcadeMojak/Server/Protocol.pb.cc:2733-2744 | the tight loop over a run of equal tags reaches the same point, with the same message, as the plain parser |
| ExplodeObject.S_Explode.ParseBlockAndPeek | CrazyArcadeMojak/Server/Protocol.pb.cc:2735-2742 | one turn of that loop is one record of the plain parser and consumes at least one byte |
| ExplodeObject.S_Explode.ParsePacked | CrazyArcadeMojak/Server/Protocol.pb.cc:2745-2749 | a packed chunk appends its ids or fails, as the plain parser does |
| ExplodeObject.S_Explode.ByteSizeLong | CrazyArcadeMojak/Server/Protocol.pb.cc:2840-2895 | the size is the number of bytes the serialiser writes, or both exceed 2 GB; below that every cached nested and packed size is the true length |
| ExplodeObject.S_Explode.InternalSerialize | CrazyArcadeMojak/Server/Protocol.pb.cc:2779-2838 | trusting cached sizes that are true, it writes exactly the encoding, and nothing else in the buffer changes |
| ExplodeObject.S_Explode.SerializeToArray | CrazyArcadeMojak/Network/PacketUtils.h:19 | it succeeds exactly when the encoding is below 2 GB and fits, and then writes it |
| ExplodeObject.S_Explode.MergeFrom | CrazyArcadeMojak/Server/Protocol.pb.cc:2904-2930 | the new value is the merge: lists concatenated, submessages copied |
| MyPlayerObject.PlayerInfoMessage.InternalParse | CrazyArcadeMojak/Server/Struct.pb.cc:216-283 | agrees with the plain parser, floats included |
| MyPlayerObject.PlayerInfoMessage.ByteSizeLong | CrazyArcadeMojak/Server/Struct.pb.cc:337-380 | the size is the number of bytes written, and it is cached |
| MyPlayerObject.PlayerInfoMessage.InternalSerialize | CrazyArcadeMojak/Server/Struct.pb.cc:285-335 | writes exactly the encoding |
| MyPlayerObject.PlayerInfoMessage.MergeFrom | CrazyArcadeMojak/Server/Struct.pb.cc:388-420 | the new value is the merge |
| MyPlayerObject.S_MyPlayer.InternalParse | CrazyArcadeMojak/Server/Protocol.pb.cc:733-768 | agrees with the plain parser: a submessage seen again is merged into the one there |
| MyPlayerObject.S_MyPlayer.MutableInfo | CrazyArcadeMojak/Server/Protocol.pb.cc:742-747 | the submessage is created empty on first use and kept afterwards |
| MyPlayerObject.S_MyPlayer.ByteSizeLong | CrazyArcadeMojak/Server/Protocol.pb.cc:791-806 | the size is the number of bytes written, and the nested size is cached |
| MyPlayerObject.S_MyPlayer.InternalSerialize | CrazyArcadeMojak/Server/Protocol.pb.cc:770-789 | writes exactly the encoding, with the cached length prefix |
| MyPlayerObject.S_MyPlayer.MergeFrom | CrazyArcadeMojak/Server/Protocol.pb.cc:816-829 | the new value is the recursive merge |
| Framing.MakeSendBuffer | CrazyArcadeMojak/Network/PacketUtils.h:8-24 | the buffer written in place is the frame; there is none when the 16-bit size wraps below the header |
| Framing.FrameLayout | CrazyArcadeMojak/Network/PacketUtils.h:10-17 | the header of every frame holds its own length and the id of its type; a body that does not fit is zeros |
| Framing.HeaderBytes | CrazyArcadeMojak/Network/PacketUtils.h:15-17 | the four header bytes of every frame: its length, then the id of its type, low byte first |
| Framing.FrameInStream | CrazyArcadeMojak/Network/PacketMacro.h:12-13 | bytes behind a frame are not looked at |
| Framing.HandlerCalledIff | CrazyArcadeMojak/Network/PacketHandler.cpp:6-14 | bytes 2 and 3 alone decide which handler is called, if any; whether the body parses does not |
| Framing.FrameDeliveredIff | CrazyArcadeMojak/Network/PacketMacro.h:5-17 | a frame reaches the handler of its own type with the original message exactly when header and body fit 16 bits |
| Framing.FrameIgnored | CrazyArcadeMojak/Network/PacketHandler.cpp:6-14 | a frame whose id nobody registered calls nobody |
| Framing.OversizedBodiesLost | CrazyArcadeMojak/Network/PacketUtils.h:10-19 | a body of 65532 bytes that gets no frame, and one of 65540 of which four zeros are sent |
| Framing.BothTablesRegistered | CrazyArcadeMojak/Network/PacketMacro.h:1-3 | in both tables every handler is registered under the id of its own type |
| TilemapFrames.OrdinaryTilemapFits | CrazyArcadeMojak/Server/Struct.pb.cc:604-628 | every `S_Tilemap` of sizes >= 0, types 0..4, detailed types 0..3 and at most 3854 tiles reaches its handler intact |
| TilemapFrames.LargestTilemapLost | CrazyArcadeMojak/Network/PacketUtils.h:10-11 | with 3855 tiles there is one that does not: the bound is tight |
| CollisionManagement.CollisionManager.Update | CrazyArcadeMojak/Client/CollisionManager.cpp:10-44 | the nested pair loop over the in-place sets is the tracker's update |
| CollisionManagement.CollisionManager.RegisterCollider | CrazyArcadeMojak/Client/CollisionManager.cpp:46-49 | registering is the tracker's step |
| CollisionManagement.CollisionManager.UnregisterCollider | CrazyArcadeMojak/Client/CollisionManager.cpp:51-55 | every occurrence leaves the list, in order, and the sets stay |
| Collision.EventsAlternate | CrazyArcadeMojak/Client/CollisionManager.cpp:10-55 | over every run, for every two colliders: begin and end alternate from begin, stay comes only in between, begins minus ends is 1 exactly while they are in each other's sets, both owners hear the same |
| Collision.SelfEventsAlternateIff | CrazyArcadeMojak/Client/CollisionManager.cpp:14-31 | for a collider and itself this fails exactly in runs where it is registered twice at an update in which it overlaps itself |
| Collision.DoubleRegistrationBreaks | CrazyArcadeMojak/Client/CollisionManager.cpp:46-49 | the shortest such run |
| Collision.UpdateRelation | CrazyArcadeMojak/Client/CollisionManager.cpp:12-43 | after an update at any point of any run two registered colliders are in each other's set iff they overlap; other entries are as before |
| Collision.OrderDoesNotMatter | CrazyArcadeMojak/Client/CollisionManager.cpp:12-15 | the relation an update leaves does not depend on the order of registration |
| CollisionEvents.UpdateTells | CrazyArcadeMojak/Client/CollisionManager.cpp:12-43 | at any point of any run, an update tells two colliders Begin when they are not in each other's sets and overlap, then Stay once for each visit, End when they are and do not, and nothing else; the visits are the product of how often they are registered |
| CollisionEvents.UpdateTellsOnce | CrazyArcadeMojak/Client/CollisionManager.cpp:19-41 | the same for colliders registered once or not at all, case by case |
| CollisionEvents.UpdateTellsInTwos | CrazyArcadeMojak/Client/CollisionManager.cpp:23-37 | every event is told to both sides one after the other, first to the one registered first |
| CollisionEvents.UnregisterTells | CrazyArcadeMojak/Client/CollisionManager.cpp:46-55 | registering and unregistering tell nothing and leave the relation; a collider unregistered is gone from the list |
| ServerObjects.Player.SetMainState | CrazyArcadeMojak/Server/Player.cpp:7-34 | new state and timers, and a broadcast exactly when the state changes and one is wanted |
| ServerObjects.Player.CheckKillOtherPlayer | CrazyArcadeMojak/Server/Player.cpp:165-190 | the loop over the room's players is the kill fold of `Lifecycle`, and the bomb lists stay |
| ServerObjects.Player.UpdateNormal | CrazyArcadeMojak/Server/Player.cpp:64-78 | one step of the life cycle; only a moving player checks its bombs |
| ServerObjects.Player.UpdateTrapped | CrazyArcadeMojak/Server/Player.cpp:80-97 | one step of the life cycle in TRAPPED |
| ServerObjects.Player.UpdateEscape | CrazyArcadeMojak/Server/Player.cpp:104-112 | one step of the life cycle in ESCAPE |
| ServerObjects.Player.Update | CrazyArcadeMojak/Server/Player.cpp:45-62 | every update is `Lifecycle.Update`, and changes the bomb lists only by the check of a moving NORMAL player |
| Lifecycle.KillAllEffect | CrazyArcadeMojak/Server/Player.cpp:165-190 | exactly the living TRAPPED others whose position, cut to whole pixels, is less than 32 away in both directions become DEAD, and nobody else changes |
| Lifecycle.StepEffect | CrazyArcadeMojak/Server/Player.cpp:45-112 | what any step can do to a player: only its own steps and the touch of a NORMAL player, from where that has moved to |
| Lifecycle.StepMoves | CrazyArcadeMojak/Server/Player.cpp:64-90 | an update takes a moving NORMAL or TRAPPED player where the room lets it and leaves everybody else where they are; its client can move it unless it is DEAD; only its release makes it cease |
| Lifecycle.StepAdds | CrazyArcadeMojak/Server/Player.cpp:165-169 | a player that enters is NORMAL at (100, 100) and listed; nobody else appears |
| Lifecycle.EverybodyListed | CrazyArcadeMojak/Server/Player.cpp:165-169 | over every run whoever is in the room is among the players an update looks at |
| Lifecycle.StateChanges | CrazyArcadeMojak/Server/Player.cpp:7-112 | the state diagram: which step takes a player to which state, and that no other does |
| Lifecycle.OnlyTrappedDie | CrazyArcadeMojak/Server/Player.cpp:80-97 | only a TRAPPED player becomes DEAD |
| Lifecycle.DeadStaysDeadIff | CrazyArcadeMojak/Server/Player.cpp:7-12 | a DEAD player stays DEAD through a run iff it is released already or no explosion reaches it before it is |
| Lifecycle.DeadPlayerRevived | CrazyArcadeMojak/Server/Player.cpp:7-21 | a run that shows it: entered, trapped, updated 90 times, hit again |
| Lifecycle.NoTimerRestarts | CrazyArcadeMojak/Server/Player.cpp:9-24 | whatever a step asks for, a player that stays TRAPPED or in ESCAPE keeps its timer; only its own update advances it |
| Lifecycle.TimersStayConsistent | CrazyArcadeMojak/Server/Player.cpp:7-24 | over every run the timer of a TRAPPED or ESCAPE player counts whole updates, fewer than 90 or 30 |
| Lifecycle.TrappedCountsTicks | CrazyArcadeMojak/Server/Player.cpp:80-97 | while left alone a trapped player's timer counts its own updates, even if it is hit again |
| Lifecycle.TrappedDiesAtNinety | CrazyArcadeMojak/Server/Player.cpp:80-97 | from the hit that traps it, a player left alone dies at its 90th update and not before; hits while trapped restart nothing |
| Lifecycle.EscapeEndsAtThirty | CrazyArcadeMojak/Server/Player.cpp:104-112 | from the needle on, ESCAPE lasts exactly 30 updates, whatever the other players do |
| Lifecycle.ReplayReproducesStates | CrazyArcadeMojak/Server/Player.cpp:7-34 | over every run, players joining in it, replaying the broadcasts on the initial states gives every player's state, and no broadcast repeats what was known |
| ServerObjects.WaterBomb.BlocksPlayer | CrazyArcadeMojak/Server/WaterBomb.h:26-36 | a bomb blocks a player iff no live entry of its list is that player |
| ServerObjects.WaterBomb.AddPassablePlayer | CrazyArcadeMojak/Server/WaterBomb.cpp:29-32 | the player is appended |
| ServerObjects.WaterBomb.RemovePassablePlayer | CrazyArcadeMojak/Server/WaterBomb.cpp:34-44 | the erasing loop leaves the live others, in order |
| ServerObjects.Player.CheckOverlapBombs | CrazyArcadeMojak/Server/Player.cpp:137-163 | for a player's list and every bomb's list at once, the erasing loop does `OverlapLists.CheckOverlap` |
| ServerObjects.Player.EraseOverlapBombs | CrazyArcadeMojak/Server/Player.cpp:137-163 | the bombs kept are the live ones less than 36 pixels away both ways, in order; those it left have dropped it, the others are as before |
| Sequences.Sift | CrazyArcadeMojak/Server/Player.cpp:139-162 | one turn of an erasing loop keeps the invariant that ends in the kept elements in order |
| Sequences.WithoutCounts | CrazyArcadeMojak/Client/Scene.cpp:62-63 | removing an object takes out every occurrence, and nothing else is lost or gained |
| OverlapLists.CheckEffect | CrazyArcadeMojak/Server/Player.cpp:137-163 | after a check a bomb remains iff it was listed, lives and still meets the player; other players' entries are unchanged; nobody is unblocked |
| OverlapLists.PlaceEffect | CrazyArcadeMojak/Server/WaterBomb.cpp:29-32 | a new bomb can be left by exactly the players it is placed under, and nothing changes about other bombs |
| OverlapLists.ComeAndGo | CrazyArcadeMojak/Server/WaterBomb.h:26-36 | what joining and releasing do to the lists |
| OverlapLists.ListsStayMutual | CrazyArcadeMojak/Server/Player.cpp:137-163 | over every run a live bomb is in a live player's list iff the player is in the bomb's |
| OverlapLists.BlockedStaysBlocked | CrazyArcadeMojak/Server/WaterBomb.h:26-36 | a bomb that blocks a player goes on blocking it through every run |
| ServerObjects.WaterBomb.Update | CrazyArcadeMojak/Server/WaterBomb.cpp:5-15 | one call, with anything the room's explosion does inside it, is `Bombs.UpdateBomb` |
| ServerObjects.WaterBomb.Explode | CrazyArcadeMojak/Server/WaterBomb.cpp:17-22 | flag, room, destruction, in that order |
| ServerObjects.GameRoom.Explode | CrazyArcadeMojak/Server/WaterBomb.cpp:20 | calls on bombs nested in any way are played out as the value machine says |
| Bombs.PlayBurns | CrazyArcadeMojak/Server/WaterBomb.cpp:5-22 | the counting invariant of one bomb is kept by every tree of re-entrant calls |
| Bombs.ExplodesOnceAtSixtieth | CrazyArcadeMojak/Server/WaterBomb.cpp:5-22 | a new bomb calls the room's explosion at most once; driven by updates alone, exactly if it got 60, and in the sixtieth; it is destroyed exactly if it did |
| Bombs.AnswerEffect | CrazyArcadeMojak/Server/WaterBomb.cpp:5-22 | what a call does to its bomb, whatever happens inside it: nothing once it has exploded, else a tick, and at two seconds or when another explosion reaches it, it is exploded and destroyed |
| Bombs.PlaySpares | CrazyArcadeMojak/Server/WaterBomb.cpp:7 | nothing that happens changes a bomb that has exploded |
| Bombs.PlaySettles | CrazyArcadeMojak/Server/WaterBomb.cpp:17-22 | over every tree of calls, once they are over a bomb is destroyed exactly if it has exploded |
| Bombs.AnswerTraces | CrazyArcadeMojak/Server/WaterBomb.cpp:5-22 | every update is entered, and the call of the room right behind the update that makes it |
| ClientObjects.ObjectManager.InitMap | CrazyArcadeMojak/Client/ObjectManager.cpp:61-64 | a grid of that size with every cell empty, and no object changes |
| ClientObjects.ObjectManager.SpawnMapObject | CrazyArcadeMojak/Client/ObjectManager.cpp:66-112 | a new object on its tile for the known types, nothing otherwise |
| ClientObjects.ObjectManager.ClearMapObjectAt | CrazyArcadeMojak/Client/ObjectManager.h:31-34 | that cell alone is emptied |
| ClientObjects.ObjectManager.RegisterSyncObject | CrazyArcadeMojak/Client/ObjectManager.cpp:15-31 | the id leads to the object |
| ClientObjects.ObjectManager.UnregisterSyncObject | CrazyArcadeMojak/Client/ObjectManager.cpp:33-49 | the id leads to nothing, and stays a key |
| ClientObjects.GameObject.SetObjectId | CrazyArcadeMojak/Client/SyncObject.cpp:10-14 | id and registration together |
| ClientObjects.GameObject.Destroy | CrazyArcadeMojak/Client/WaterBomb.cpp:57 | the object is dead, and nothing else changes |
| ClientObjects.GameObject.Release | CrazyArcadeMojak/Client/MapObject.cpp:34-38 | what each kind of object undoes when released |
| ClientObjects.Scene.CreateObject | CrazyArcadeMojak/Client/Scene.cpp:52-55 | a new object at the end of the scene's list |
| ClientObjects.Scene.UnregisterObject | CrazyArcadeMojak/Client/Scene.cpp:57-64 | every occurrence leaves the list, the others stay in order; null is ignored |
| ClientObjects.Scene.RemoveDeadObjects | CrazyArcadeMojak/Client/Scene.cpp:120-132 | the loop over a snapshot is the sweep of `ObjectGrid`, touches no deleted object and keeps every invariant |
| ClientObjects.Scene.ReleaseObjects | CrazyArcadeMojak/Client/Scene.cpp:134-142 | the loop deletes everything, touches no deleted object and keeps every invariant |
| ObjectGrid.RemoveDeadEffect | CrazyArcadeMojak/Client/Scene.cpp:120-132 | a sweep deletes exactly the dead objects, each once, and keeps the living in order |
| ObjectGrid.DestroyedIsSwept | CrazyArcadeMojak/Client/Scene.cpp:120-132 | an object that is destroyed is deleted by the next sweep, with its cell and its id, and what else lives is as it was |
| ObjectGrid.CreatedSurvives | CrazyArcadeMojak/Client/ObjectManager.cpp:66-112 | a new object is last in the scene and outlives the next sweep; on a tile, its rectangle is the square of that tile |
| ObjectGrid.ReleaseAllEffect | CrazyArcadeMojak/Client/Scene.cpp:134-142 | closing a scene deletes every object not deleted before, each once, and leaves no cell and no id leading anywhere |
| ObjectGrid.FreeKeeps | CrazyArcadeMojak/Client/MapObject.cpp:34-38 | releasing an object keeps scene, grid and id map in agreement |
| ObjectGrid.InitMapKeepsIff | CrazyArcadeMojak/Client/ObjectManager.cpp:61-64 | a new grid keeps scene, grid and ids in agreement iff no undeleted object is a map object |
| ObjectGrid.CreateKeepsIff | CrazyArcadeMojak/Client/Tilemap.cpp:85-95 | creating an object off the grid keeps it iff it is no map object |
| ObjectGrid.SpawnKeepsIff | CrazyArcadeMojak/Client/ObjectManager.cpp:103-107 | spawning on a tile of the map keeps it iff the cell is empty |
| ObjectGrid.SetObjectIdKeepsIff | CrazyArcadeMojak/Client/SyncObject.cpp:10-14 | giving an id keeps it iff the id is not 0, the object has no other and no other undeleted object has it |
| ObjectGrid.SetPosKeepsIff | CrazyArcadeMojak/Client/MapObject.cpp:34-38 | setting a position keeps it iff a map object stays in its tile |
| ObjectGrid.DoKeepsIff | CrazyArcadeMojak/Client/Scene.cpp:52-142 | any step keeps it iff it is harmless, a condition on the state before the step |
| ObjectGrid.RunKeepsIff | CrazyArcadeMojak/Client/Scene.cpp:52-142 | scene, grid and ids agree all through a run iff every step of it is harmless |
| ObjectGrid.GridAgreesWithObjects | CrazyArcadeMojak/Client/ObjectManager.h:28-38 | after every harmless run, `InitMap` at any time, non-null cells and undeleted map objects are one-to-one, no id leads to a deleted object, every given id finds its object, nothing was deleted twice |
| ObjectGrid.TileStepsBreak | CrazyArcadeMojak/Client/ObjectManager.cpp:61-107 | on a grid of one tile: a second object there, a second map, a map object off the grid or moved to another tile breaks the agreement |
| ObjectGrid.IdStepsBreak | CrazyArcadeMojak/Client/ObjectManager.cpp:15-18 | an id given twice and an object given two ids break it |
| Geometry.TileToWorldAndBackIff | CrazyArcadeMojak/Client/Utils.cpp:94-102 | a tile's middle lies in that tile iff no coordinate is negative |
| Geometry.TileSquare | CrazyArcadeMojak/Client/Utils.cpp:99-102 | the rectangle of a map object on a tile is that tile's square of 40 pixels |
| Geometry.WorldToTileIff | CrazyArcadeMojak/Client/Utils.cpp:94-97 | on the map a position is in the tile whose square holds it |
| Geometry.TruncateIff | CrazyArcadeMojak/Server/Player.h:34-41 | the cast to an integer cuts off towards zero |
| Geometry.IntersectsIff | CrazyArcadeMojak/Server/Player.cpp:153 | two rectangles intersect iff they have a point in common |
| Geometry.TouchIff | CrazyArcadeMojak/Server/Player.cpp:181-185 | players touch iff less than 32 pixels apart both ways, a player and a bomb less than 36 |
| ExplosionCross.WaterBomb.Explode | CrazyArcadeMojak/Client/WaterBomb.cpp:25-58 | the nested loops create the effects of the cross, in order, and the bomb is dead |
| ExplosionCross.CrossSize | CrazyArcadeMojak/Client/WaterBomb.cpp:27-55 | 1 plus the sum of the positive counts effects |
| ExplosionCross.CrossPieces | CrazyArcadeMojak/Client/WaterBomb.cpp:35-55 | an effect is in the cross iff it is the middle or piece 1..count of an arm, with that arm's direction, and is an end piece iff it is the tip |
| ExplosionCross.CrossCovers | CrazyArcadeMojak/Client/WaterBomb.cpp:32-41 | in coordinates: which places the cross covers, 40 pixels a step, straight above, below, left and right |
| ExplosionCross.CrossDistinct | CrazyArcadeMojak/Client/WaterBomb.cpp:41 | no two effects are in the same place |
| TilemapFile.Tilemap.LoadFile | CrazyArcadeMojak/Client/Tilemap.cpp:8-30 | the nested read loops give the loaded map, for every file |
| TilemapFile.Tilemap.SaveFile | CrazyArcadeMojak/Client/Tilemap.cpp:32-52 | the nested write loops give exactly the saved bytes |
| TilemapFile.Tilemap.SetMapSize | CrazyArcadeMojak/Client/Tilemap.cpp:62-75 | a map of that size, all zero |
| TilemapFile.SaveThenLoad | CrazyArcadeMojak/Client/Tilemap.cpp:8-52 | loading a saved map where there is room restores size and every tile, leaves the rest of the storage alone, is written again as the same bytes, 8 + 4 * W * H of them |
| TilemapFile.SavedAt | CrazyArcadeMojak/Client/Tilemap.cpp:38-48 | every byte of a saved file: width, height, then the tiles row by row, low byte first |
| TilemapFile.LoadedAt | CrazyArcadeMojak/Client/Tilemap.cpp:18-26 | for any file whatever: which value of it each tile becomes, -1 past its end |
| TilemapFile.LoadedSizeIs | CrazyArcadeMojak/Client/Tilemap.cpp:15-16 | the size comes from the first eight bytes; what the file is too short to give stays |
| TilemapFile.ValuesAt | CrazyArcadeMojak/Client/Tilemap.cpp:22-24 | a file holds one value for every whole four bytes |
| TilemapFile.BytesOfValue | CrazyArcadeMojak/Client/Tilemap.cpp:22-24 | every four bytes are those of exactly one value |

## Left out

- `S_Tilemap`, `TileInfo`, `S_Move` and `C_Move` as classes: they are modelled on values only (parsing, writing, merging); their loops have the same shapes as those of `S_Explode` and `PlayerInfo`, and the model does not capture their cached sizes and buffers.
- The other messages of `Protocol.pb.cc`: smaller instances of the same shapes.
- Arenas, reflection, descriptors, swap, `EnsureSpace` and the slop of the parse buffer: inputs and outputs are plain byte sequences; the slop is modelled only as the size limit it puts on one payload.
- UTF-8 checks and default-instance pointers: the modelled messages have no strings.
- BlockObject.DestroyedBlockInfo.InternalParse: the contents of the message after a failed parse are not stated.
- MyPlayerObject.PlayerInfoMessage.InternalParse: the contents of the message after a failed parse are not stated.
- MyPlayerObject.S_MyPlayer.InternalParse: the contents of the message after a failed parse are not stated.
- ExplodeObject.S_Explode.InternalParse: the contents of the message after a failed parse are not stated; a handler that is called with one is called with `None`.
- ExplodeObject.S_Explode.ByteSizeLong: sizes beyond 2 GB are only said to be beyond it, because the serialiser refuses them.
- MyPlayerObject.S_MyPlayer.ByteSizeLong: nested sizes of 4 GB and more, which the code cuts to 32 bits, are not modelled.
- Framing.MakeSendBuffer: the body is serialised as a value, and where the buffer is shorter than its header there is none; what the code writes behind it is not modelled.
- Framing.FrameDeliveredIff: receiving is reduced to complete frames with a size of at least the header and an id below 65535; the receive buffer, sessions and sockets are not part of this model.
- `GameRoom`: the bodies of its steps are arguments of the model (where a moving player ends up, whom an explosion traps, which bombs it reaches), not proved code.
- `Player::CheckGetItem`, item counters and the choice of speed: easy members.
- ServerObjects.Player.UpdateNormal: item pickup, which touches neither life cycle nor lists, is not part of it.
- ServerObjects.Player.Update: item pickup, which touches neither life cycle nor lists, is not part of it.
- Rounding of float timers and positions: the numbers of updates 30, 60 and 90 are those of exact thirtieths of a second.
- ExplosionCross.WaterBomb.Explode: the effects are a list of values, not objects registered with the scene, and `TILE_SIZE * j` does not overflow.
- TilemapFile.Tilemap.LoadFile: a file that ends inside a value is treated as ending before it; what `fread` leaves in a partly read value is not specified.
- TilemapFile.Tilemap.SetMapSize: negative sizes, for which the vector constructor throws, are excluded.
- ClientObjects.ObjectManager.SpawnMapObject: tiles outside the map, which index past the vectors, are excluded.
- UI lists, components, rendering and resources: no bearing on the grid.
- Threads and locks: every method runs alone.
