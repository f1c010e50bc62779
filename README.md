# pcap-analysis core in Dafny

This project models the validated packet record from pcap-analysis, the extraction step that turns a capture into a log of those records, and the summary helpers of the topology analysis.

The packet record (`src/model.py`) has sixteen typed fields and two validators:

- `dsfield` arrives as hexadecimal text and is stored as its integer value. Python's `int(v, 16)` is modelled (`Hex.ParseInt16`), with CPython's full syntax for ASCII text: surrounding whitespace, a sign, an optional `0x`/`0X` prefix, and underscores between digits.
- `flags_rb`, the reserved IP flag, must be zero (section 3.1 of RFC 791).

`PacketModel.NewPacket` is the record construction. It yields the record or names the validator that failed.

The extraction step (`src/extract_packets.py`):

- `read_packet` ignores a packet without an IP layer.
- Otherwise it builds the record and appends it to a JSON-lines log. The ports come from the UDP layer, else the TCP layer, else both are -1.
- A failing construction raises before the append.
- `read_pcap` with one worker calls `read_packet` on every packet in capture order. The first failure ends the run.

The log is a class, `ExtractPackets.RecordLog`, whose entry list the methods extend in place. The pure specification `ExtractPackets.Sequential` describes what a whole run appends and where it stops.

From the topology analysis (`src/topology_analysis.py`), three pieces are modelled:

- the group-by-and-sum of `len` per (`src`, `dst`, `proto`);
- the edge list `get_graph` builds for one protocol;
- the loop of `get_diameter` over a distance matrix, including the two ways it raises.

The matrix uses graph-tool's "no path" value 2147483647. It is an input here: computing shortest distances is graph-tool's job.

The files are `wrappers.dfy` (Option, Result), `hex.dfy`, `packet_model.dfy`, `extract_packets.dfy` and `topology_analysis.dfy`.

## Model

| member | source | states |
|---|---|---|
| Hex.ParseInt16 | src/model.py:57 | `int(v, 16)` for ASCII text: `None` exactly where CPython raises ValueError, that is, unless what is left after stripping whitespace, one sign and an optional `0x`/`0X` prefix (and one underscore after it) is a group of digits with single underscores; a negative value only after a leading `-` |
| Hex.DigitValue | src/model.py:57 | a hexadecimal digit, in either case, has a value below 16 |
| Hex.ParseOfRendering | src/model.py:54-57 | `int(v, 16)` gives back `n` for `n`'s digits with no prefix, `0x` or `0X`, any number of leading zeros, with or without a minus sign |
| Hex.ParseOfPyHex | src/model.py:54-57 | `int(hex(i), 16) == i` for every integer `i` |
| Hex.ParseOfUnsigned | src/model.py:57 | an unsigned literal with no surrounding whitespace parses to its value, and to the negated value after a `-` |
| Hex.ParseUnsignedRendering | src/model.py:57 | a prefix and leading zeros in front of the digits of `n` are accepted and give `n` |
| Hex.RenderingValue | src/model.py:57 | zeros followed by the digits of `n` form a valid digit group whose base-16 value is `n` |
| Hex.ValueOfToHex | src/model.py:57 | the base-16 value of the digits of `n` is `n` |
| Hex.ValueLeadingZeros | src/model.py:57 | leading zeros do not change a digit string's value |
| Hex.ParseExamples | src/model.py:57 | `"1a"` gives 26 and `"0xFF"` gives 255; `"zz"` and the empty string are rejected |
| Hex.ParseNeedsDigit | src/model.py:57 | text containing no hexadecimal digit is rejected |
| Hex.ParseIgnoresCase | src/model.py:57 | upper-casing the text, digits and prefix alike, does not change the parse |
| Hex.TrimmedContents | src/model.py:57 | trimming the whitespace keeps only characters of the original text |
| PacketModel.FlagsRbMustBeZero | src/model.py:47-52 | accepts exactly the value 0, returning it unchanged; any other value is rejected with that value |
| PacketModel.SetDsfieldInt16 | src/model.py:54-57 | accepts exactly the text `int(v, 16)` accepts, returning that value; otherwise rejects with the text |
| PacketModel.NewPacket | src/model.py:13-57 | construction succeeds iff `flags_rb` is 0 and `dsfield` parses. On success `dsfield` is the parsed value and every other field is copied. A non-zero `flags_rb` is the reported error even when `dsfield` is also bad |
| PacketModel.RebuildRecord | src/model.py:13-57 | every record with `flags_rb == 0` is rebuilt, unchanged, from its fields with `dsfield` rendered by `hex()` |
| ExtractPackets.SelectPorts | src/extract_packets.py:63-64 | the ports are the UDP layer's if present, else the TCP layer's, else (-1, -1) |
| ExtractPackets.ExtractRecord | src/extract_packets.py:49-65 | no IP layer gives no record. With one, the record is built iff `flags_rb` is 0 and `dsfield` parses; it then holds the IP fields, the selected ports and the timestamp. A set reserved flag is the error; with the flag clear, a `dsfield` that does not parse is the error, carrying its text |
| ExtractPackets.RecordLog.constructor | src/extract_packets.py:68 | a log opened on existing entries holds exactly them |
| ExtractPackets.RecordLog.Write | src/extract_packets.py:68-69 | appends the record as one entry at the end; earlier entries are unchanged |
| ExtractPackets.ReadPacket | src/extract_packets.py:36-71 | a packet without an IP layer changes nothing. The call fails iff construction fails, with the same error. The log gains exactly the built record on success and nothing on failure |
| ExtractPackets.ReadPcap | src/extract_packets.py:74-94 | the log gains exactly what the sequential run appends. The call fails iff the run stops at a failure, and reports that failure |
| ExtractPackets.Sequential | src/extract_packets.py:92 | the records a one-worker run appends and the failure that ended it, if any, packet by packet in capture order; it never appends more records than there are packets. Its other properties are the lemmas below |
| ExtractPackets.FailureIsFinal | src/extract_packets.py:92 | once a prefix of the capture has failed, the later packets change nothing |
| ExtractPackets.SequentialSucceedsIffAllValid | src/extract_packets.py:92 | a run fails iff some packet of the capture fails construction |
| ExtractPackets.SequentialRecordsInOrder | src/extract_packets.py:49-69 | a run with no failure appends one record per IP-bearing packet, in capture order, each the record built from that packet |
| ExtractPackets.SequentialStopsAtFirstFailure | src/extract_packets.py:92 | a failed run stopped at a packet whose construction gave that failure. Every earlier packet succeeded, and the log holds exactly what they appended |
| ExtractPackets.FirstFailure | src/extract_packets.py:92 | the index of the failing packet: the prefix before it succeeds, and the run's output is that prefix's |
| ExtractPackets.SequentialRecordsValid | src/extract_packets.py:49-69 | no run appends more records than there are IP-bearing packets. Every appended record has `flags_rb == 0` and was copied from some packet of the capture |
| ExtractPackets.IpBearingBound | src/extract_packets.py:49 | the IP-bearing packets are among the capture's and all carry an IP layer |
| ExtractPackets.IpBearingSnoc | src/extract_packets.py:49 | the IP-bearing packets of a capture extended by one are those of the capture, plus the new one if it has an IP layer |
| TopologyAnalysis.GroupLenSums | src/topology_analysis.py:79-81 | one group per (`src`, `dst`, `proto`) that occurs in the log and no other, each holding the sum of its records' `len` |
| TopologyAnalysis.SumLenAbsent | src/topology_analysis.py:81 | a key no record has sums to 0 |
| TopologyAnalysis.GetGraph | src/topology_analysis.py:28-32 | the edge list is no longer than the table; its exact contents and order are stated by GetGraphMatching |
| TopologyAnalysis.Matching | src/topology_analysis.py:30 | the indices of the rows whose `proto` is the protocol: in range, strictly increasing, and every matching row's index |
| TopologyAnalysis.GetGraphMatching | src/topology_analysis.py:28-32 | the filter keeps exactly the matching rows in row order: there is one edge per matching row, and edge `j` is the (`src`, `dst`, `len`) of the `j`-th matching row |
| TopologyAnalysis.GetGraphEdges | src/topology_analysis.py:28-32 | every edge is the (`src`, `dst`, `len`) of some row with the protocol, and every such row gives an edge |
| TopologyAnalysis.GetGraphAppend | src/topology_analysis.py:28-32 | filtering two tables one after the other gives the two edge lists one after the other |
| TopologyAnalysis.GetGraphAllMatch | src/topology_analysis.py:28-32 | a table whose rows all have the protocol gives one edge per row, in row order |
| TopologyAnalysis.MaxReachable | src/topology_analysis.py:49-51 | the largest row entry other than "no path"; nothing iff every entry is "no path" |
| TopologyAnalysis.GetDiameter | src/topology_analysis.py:37-53 | succeeds iff every row has a "no path" entry and some other entry. The result is at least 0 and at least every finite distance, and is 0 or one of them. An error names the first failing vertex and why it failed |

## Left out

- Packet decoding by pyshark/tshark is not modelled: a captured packet is an input value with optional IP, UDP and TCP layers.
- pydantic's coercion of the other fields from text to `int` and `float` is not modelled: those fields arrive already typed. The timestamp is a `real` copied unchanged, and floating-point rounding is not modelled.
- Hex.ParseInt16: handles ASCII text only. Python also accepts non-ASCII Unicode digits and whitespace in `int()`.
- The `flags_rb` validator calls `ValidationError('...')`, which raises an exception other than a validation error; this escapes construction at once. The model records this as the `ReservedFlagSet` rejection taking precedence over a `dsfield` rejection. The exception's class is not modelled.
- ExtractPackets.ReadPcap: models only `n_jobs=1`. With several workers, joblib's interleaving changes the order in which packets are handled and appended; that concurrency is not modelled.
- The elapsed time `read_pcap` returns comes from the clock and is not modelled.
- Reading the capture file, opening the log file, and the JSON serialisation of records (`model_dump_json`, `json.loads`, `jsonlines`) are not modelled. The log is the sequence of records written.
- The `main` functions are not modelled: argument parsing, the prompt before removing an existing log, the directory checks, and the conversion of the log to parquet.
- `src/download_extract.py` and `src/capinfos.py` are not part of this model.
- TopologyAnalysis.GroupLenSums: the groups form a map, so polars' unspecified group order is not modelled. The later `1/len` weight (a float) and the sort by weight are not modelled either.
- TopologyAnalysis.GetGraph: only the edge list given to the graph constructor is modelled. Vertex hashing and the `double` edge property are graph-tool's.
- TopologyAnalysis.GetDiameter: the matrix of shortest distances is an input, since computing it is graph-tool's `shortest_distance`; the progress bar is left out. Each row is scanned for its largest entry other than "no path", not converted to a set first. The set holds the same values, so `max` sees the same maximum.
- Betweenness, drawing, largest components, the degree distribution, clustering coefficients, component labelling and the plots are graph-tool, seaborn and matplotlib calls, and are not modelled.
