// Length-prefixed files over a byte stream whose reads and writes may be short.
module FileStream {
  import opened Bytes

  const MAX_FILE_SIZE: nat := 10_000_000
  const BUFFER_SIZE: nat := 1024
  const LONG_SIZE: nat := 8

  // ----- The size header: a little-endian long long -----

  lemma LongRange()
    ensures Range(LONG_SIZE) == 0x1_0000_0000_0000_0000
  {
    assert Range(4) == 0x1_0000_0000;
  }

  function EncodeLong(n: int): (r: bytes)
    requires -0x8000_0000_0000_0000 <= n < 0x8000_0000_0000_0000
    ensures |r| == LONG_SIZE
  {
    EncodeLE(if n < 0 then n + 0x1_0000_0000_0000_0000 else n, LONG_SIZE)
  }

  function DecodeLong(b: bytes): int {
    var bits := DecodeLE(b);
    if bits >= 0x8000_0000_0000_0000 then bits - 0x1_0000_0000_0000_0000 else bits
  }

  lemma DecodeEncodeLong(n: int)
    requires -0x8000_0000_0000_0000 <= n < 0x8000_0000_0000_0000
    ensures DecodeLong(EncodeLong(n)) == n
  {
    hide EncodeLE, DecodeLE;
    LongRange();
    DecodeEncodeLE(if n < 0 then n + 0x1_0000_0000_0000_0000 else n, LONG_SIZE);
  }

  // ----- Frames -----

  // getFileSize of an existing file.
  function GetFileSize(contents: bytes): int {
    if |contents| > MAX_FILE_SIZE then -1 else |contents|
  }

  // What a file looks like on the stream.
  function Frame(contents: bytes): bytes {
    EncodeLong(GetFileSize(contents)) + contents
  }

  // Byte by byte: eight bytes of size, the least significant first, then the file; a file above the limit is announced
  // by eight bytes 255.
  lemma FrameLayout(contents: bytes, k: nat)
    requires k < 8
    ensures |Frame(contents)| == 8 + |contents| && Frame(contents)[8..] == contents
    ensures Frame(contents)[k] == if |contents| <= 10_000_000 then Whole(|contents|, Range(k)) % 256 else 255
  {
    assert Frame(contents)[k] == EncodeLong(GetFileSize(contents))[k];
    if |contents| <= MAX_FILE_SIZE {
      EncodedByte(|contents|, LONG_SIZE, k);
    } else {
      LongRange();
      AllOnes(LONG_SIZE, k);
    }
  }

  lemma {:induction false} AllOnes(width: nat, k: nat)
    requires k < width
    ensures EncodeLE(Range(width) - 1, width)[k] == 255
  {
    assert (Range(width) - 1) % 256 == 255 && (Range(width) - 1) / 256 == Range(width - 1) - 1;
    if k > 0 {
      AllOnes(width - 1, k - 1);
    }
  }

  // The file a receiver takes from a stream, and what it leaves there. A negative size counts as an empty file.
  function Received(stream: bytes): Option<(bytes, bytes)> {
    if |stream| < LONG_SIZE then None
    else
      var size, rest := DecodeLong(stream[..LONG_SIZE]), stream[LONG_SIZE..];
      var n: nat := if size < 0 then 0 else size;
      if n <= |rest| then Some((rest[..n], rest[n..])) else None
  }

  lemma FrameIsReceived(contents: bytes, rest: bytes)
    ensures Received(Frame(contents) + rest)
            == if |contents| <= 10_000_000 then Some((contents, rest)) else Some(([], contents + rest))
  {
    hide EncodeLong, DecodeLong;
    var stream, size := Frame(contents) + rest, GetFileSize(contents);
    DecodeEncodeLong(size);
    assert stream[..LONG_SIZE] == EncodeLong(size);
    assert stream[LONG_SIZE..] == contents + rest;
    assert |contents| <= |contents + rest| && (contents + rest)[..|contents|] == contents;
  }

  function Frames(files: seq<bytes>): bytes {
    if files == [] then [] else Frame(files[0]) + Frames(files[1..])
  }

  // n files taken from a stream, one after the other.
  function ReceivedAll(n: nat, stream: bytes): Option<(seq<bytes>, bytes)> {
    if n == 0 then Some(([], stream))
    else
      match Received(stream)
      case None => None
      case Some(first) =>
        match ReceivedAll(n - 1, first.1)
        case None => None
        case Some(others) => Some(([first.0] + others.0, others.1))
  }

  // Any number of files sent back to back are each recovered, and exactly their frames are consumed, if and only if
  // none of them is larger than 10,000,000 bytes. (For a larger one the sender announces the size -1.)
  lemma {:induction false} FilesAreRecovered(files: seq<bytes>, rest: bytes)
    ensures ReceivedAll(|files|, Frames(files) + rest) == Some((files, rest))
            <==> forall i :: 0 <= i < |files| ==> |files[i]| <= 10_000_000
    decreases |files|
  {
    hide Received, Frame;
    if files == [] {
      assert Frames(files) + rest == rest;
    } else {
      var behind := Frames(files[1..]) + rest;
      assert Frames(files) + rest == Frame(files[0]) + behind;
      FrameIsReceived(files[0], behind);
      FilesAreRecovered(files[1..], rest);
      FirstAndOthers(files);
    }
  }

  lemma FirstAndOthers(files: seq<bytes>)
    requires files != []
    ensures (forall i :: 0 <= i < |files| ==> |files[i]| <= 10_000_000)
            <==> |files[0]| <= 10_000_000 && forall i :: 0 <= i < |files[1..]| ==> |files[1..][i]| <= 10_000_000
    ensures forall others: seq<bytes> :: [files[0]] + others == files <==> others == files[1..]
    ensures forall others: seq<bytes> :: files[0] != [] ==> [[]] + others != files
  {
    forall i | 1 <= i < |files| && forall j :: 0 <= j < |files[1..]| ==> |files[1..][j]| <= 10_000_000
      ensures |files[i]| <= 10_000_000
    {
      assert files[i] == files[1..][i - 1];
    }
    forall others: seq<bytes> ensures [files[0]] + others == files <==> others == files[1..] {
      assert ([files[0]] + others)[1..] == others;
    }
  }

  // ----- Schedules of short calls -----

  // A schedule decides how much each call moves: a negative number makes the call fail, and a call past its end moves
  // all it can. This is what the next call moves if it can move at most `want` bytes.
  function Moved(schedule: seq<int>, want: nat): (n: int)
    ensures -1 <= n <= want && (want > 0 ==> n != 0)
  {
    if schedule == [] || want <= schedule[0] then want
    else if schedule[0] < 0 then -1
    else if schedule[0] == 0 then 1
    else schedule[0]
  }

  function Rest(schedule: seq<int>): seq<int> {
    if schedule == [] then [] else schedule[1..]
  }

  // No call fails.
  predicate Works(schedule: seq<int>) {
    forall k :: 0 <= k < |schedule| ==> schedule[k] >= 0
  }

  lemma MovesSome(schedule: seq<int>, want: nat)
    requires Works(schedule)
    ensures Moved(schedule, want) >= 0 && Works(Rest(schedule))
  {
  }

  // What is left of a schedule after n bytes have been moved, at most `chunk` of them with one call.
  function AfterMoving(schedule: seq<int>, n: nat, chunk: nat): seq<int>
    decreases n
  {
    var moved := Moved(schedule, Smaller(n, chunk));
    if n == 0 || moved <= 0 then schedule else AfterMoving(Rest(schedule), n - moved, chunk)
  }

  function Smaller(m: nat, n: nat): nat {
    if m < n then m else n
  }

  // ----- Descriptors -----

  // A descriptor: what is left to read, what has been written, and the schedule of its next calls.
  class Descriptor {
    var input: bytes
    var output: bytes
    var schedule: seq<int>

    constructor (input: bytes, schedule: seq<int>)
      ensures this.input == input && output == [] && this.schedule == schedule
    {
      this.input, output, this.schedule := input, [], schedule;
    }

    // Nothing to read means end of file.
    method Read(max: nat) returns (n: int, data: bytes)
      modifies this`input, this`schedule
      ensures n == old(Moved(schedule, Smaller(max, |input|))) && schedule == Rest(old(schedule))
      ensures old(input) == data + input && |data| == NonNegative(n)
      ensures old(Works(schedule)) ==> Works(schedule) && n >= 0
    {
      n := Moved(schedule, Smaller(max, |input|));
      data := input[..NonNegative(n)];
      input := input[|data|..];
      schedule := Rest(schedule);
    }

    method Write(data: bytes) returns (n: int)
      modifies this`output, this`schedule
      ensures n == old(Moved(schedule, |data|)) && schedule == Rest(old(schedule))
      ensures output == old(output) + data[..NonNegative(n)]
      ensures old(Works(schedule)) ==> Works(schedule) && n >= 0
    {
      n := Moved(schedule, |data|);
      output := output + data[..NonNegative(n)];
      schedule := Rest(schedule);
    }
  }

  function NonNegative(n: int): nat {
    if n < 0 then 0 else n
  }

  // Writes all of data unless a write fails.
  method WriteAll(fd: Descriptor, data: bytes) returns (ok: bool)
    modifies fd`output, fd`schedule
    ensures old(fd.output) <= fd.output <= old(fd.output) + data
    ensures ok <==> fd.output == old(fd.output) + data
    ensures old(Works(fd.schedule)) ==> ok && Works(fd.schedule)
    ensures ok ==> fd.schedule == AfterMoving(old(fd.schedule), |data|, |data|)
  {
    hide Works, Moved, Rest;
    var totalSent := 0;
    while totalSent < |data|
      invariant 0 <= totalSent <= |data| && fd.output == old(fd.output) + data[..totalSent]
      invariant old(Works(fd.schedule)) ==> Works(fd.schedule)
      invariant AfterMoving(old(fd.schedule), |data|, |data|) == AfterMoving(fd.schedule, |data| - totalSent, |data|)
    {
      var sent := fd.Write(data[totalSent..]);
      SentSoFar(old(fd.output), data, totalSent, NonNegative(sent));
      if sent < 0 {
        return false;
      }
      totalSent := totalSent + sent;
    }
    assert data[..totalSent] == data;
    ok := true;
  }

  lemma SentSoFar(before: bytes, data: bytes, n: nat, sent: nat)
    requires n < |data| && n + sent <= |data|
    ensures before + data[..n] <= before + data && before + data[..n] != before + data
    ensures before + data[..n] + data[n..][..sent] == before + data[..n + sent]
  {
    assert before + data == (before + data[..n]) + data[n..];
    assert data[..n] + data[n..][..sent] == data[..n + sent];
  }

  // What is left of the stream's schedule after a file of n bytes has been sent, which is read through its own
  // schedule.
  function AfterSending(schedule: seq<int>, fileSchedule: seq<int>, n: nat): seq<int>
    decreases n
  {
    var chunk := Moved(fileSchedule, Smaller(BUFFER_SIZE, n));
    if n == 0 || chunk <= 0 then schedule
    else AfterSending(AfterMoving(schedule, chunk, chunk), Rest(fileSchedule), n - chunk)
  }

  // sendFile. A missing file (null) sends nothing. A short write of the header goes unnoticed: when nothing fails, the
  // stream carries what went out of the header and then the whole file.
  method SendFile(fd: Descriptor, file: Descriptor?, fileSize: int) returns (result: int)
    requires fd != file && -0x8000_0000_0000_0000 <= fileSize < 0x8000_0000_0000_0000
    modifies fd`output, fd`schedule
    modifies if file == null then {} else {file}
    ensures result == 0 || result == -1
    ensures file == null ==> result == -1 && fd.output == old(fd.output)
    // whatever fails, the start of the header is followed by a part of the file and nothing else
    ensures file != null ==>
              var header := old(fd.output) + EncodeLong(fileSize)[..NonNegative(old(Moved(fd.schedule, LONG_SIZE)))];
              header <= fd.output <= header + old(file.input)
    ensures file != null && old(Works(fd.schedule)) && old(Works(file.schedule)) ==>
              && result == 0 && Works(fd.schedule)
              && fd.output
                  == old(fd.output) + EncodeLong(fileSize)[..old(Moved(fd.schedule, LONG_SIZE))] + old(file.input)
              && fd.schedule == AfterSending(old(Rest(fd.schedule)), old(file.schedule), old(|file.input|))
  {
    hide EncodeLong, Works, Moved, Rest, AfterMoving;
    if file == null {
      return -1;
    }
    var n := fd.Write(EncodeLong(fileSize));
    if n < 0 {
      return -1;
    }
    result := SendBody(fd, file);
  }

  // The loop of sendFile: the file, a buffer at a time.
  method SendBody(fd: Descriptor, file: Descriptor) returns (result: int)
    requires fd != file
    modifies fd`output, fd`schedule, file
    ensures result == 0 || result == -1
    ensures old(fd.output) <= fd.output <= old(fd.output) + old(file.input)
    ensures old(Works(fd.schedule)) && old(Works(file.schedule)) ==>
              && result == 0 && Works(fd.schedule) && fd.output == old(fd.output) + old(file.input)
              && fd.schedule == AfterSending(old(fd.schedule), old(file.schedule), old(|file.input|))
  {
    hide Works, Moved, Rest, AfterMoving, AfterSending;
    ghost var start, left := fd.output, file.schedule;
    var bytesRead, buffer := file.Read(BUFFER_SIZE);
    ghost var sent: bytes := [];
    while bytesRead > 0
      invariant |buffer| == NonNegative(bytesRead) && file.schedule == Rest(left)
      invariant bytesRead == Moved(left, Smaller(BUFFER_SIZE, |buffer + file.input|))
      invariant old(file.input) == sent + (buffer + file.input)
      invariant fd.output == start + sent
      invariant old(Works(fd.schedule)) ==> Works(fd.schedule)
      invariant old(Works(file.schedule)) ==> Works(file.schedule) && bytesRead >= 0
      invariant old(Works(fd.schedule)) && old(Works(file.schedule)) ==>
                  AfterSending(old(fd.schedule), old(file.schedule), old(|file.input|))
                  == AfterSending(fd.schedule, left, |buffer + file.input|)
      decreases |buffer| + |file.input|
    {
      SendStep(fd.schedule, left, |buffer + file.input|);
      SendGroups(start, sent, buffer, file.input);
      var ok := WriteAll(fd, buffer);
      if !ok {
        return -1;
      }
      sent := sent + buffer;
      left := file.schedule;
      ghost var remaining := file.input;
      bytesRead, buffer := file.Read(BUFFER_SIZE);
      assert remaining == buffer + file.input;
    }
    SendEnd(fd.schedule, left, |buffer + file.input|);
    SendGroups(start, sent, buffer, file.input);
    result := 0;
  }

  lemma SendGroups(start: bytes, sent: bytes, buffer: bytes, rest: bytes)
    ensures start + (sent + (buffer + rest)) == start + sent + buffer + rest == start + (sent + buffer) + rest
    ensures sent + (buffer + rest) == (sent + buffer) + rest
  {
    assert sent + (buffer + rest) == (sent + buffer) + rest;
  }

  lemma SendStep(schedule: seq<int>, fileSchedule: seq<int>, n: nat)
    requires Moved(fileSchedule, Smaller(BUFFER_SIZE, n)) > 0
    ensures var chunk := Moved(fileSchedule, Smaller(BUFFER_SIZE, n));
            chunk <= n && AfterSending(schedule, fileSchedule, n)
                == AfterSending(AfterMoving(schedule, chunk, chunk), Rest(fileSchedule), n - chunk)
  {
    hide AfterMoving;
  }

  lemma SendEnd(schedule: seq<int>, fileSchedule: seq<int>, n: nat)
    requires Moved(fileSchedule, Smaller(BUFFER_SIZE, n)) <= 0
    ensures AfterSending(schedule, fileSchedule, n) == schedule
    ensures Moved(fileSchedule, Smaller(BUFFER_SIZE, n)) == 0 ==> n == 0
  {
  }

  // The loop of receiveFile: fileSize bytes from the stream into the saved file, a buffer at a time.
  method ReceiveBody(fd: Descriptor, save: Descriptor, fileSize: int) returns (ok: bool, ghost body: bytes)
    requires fd != save && save.output == []
    modifies fd`input, fd`schedule, save`output, save`schedule
    ensures old(fd.input) == body + fd.input && save.output <= body
    ensures ok ==> save.output == body && |body| == NonNegative(fileSize)
    ensures ok ==> fd.schedule == AfterMoving(old(fd.schedule), |body|, BUFFER_SIZE)
    ensures old(Works(fd.schedule)) ==> Works(fd.schedule)
    ensures old(Works(fd.schedule)) && old(Works(save.schedule)) ==> (ok <==> NonNegative(fileSize) <= |old(fd.input)|)
  {
    hide Works, Moved, Rest;
    body := [];
    var bytesReceived := 0;
    ghost var enough := NonNegative(fileSize) <= |fd.input|;
    while bytesReceived < fileSize
      invariant bytesReceived == |body| && bytesReceived <= NonNegative(fileSize)
      invariant old(fd.input) == body + fd.input && save.output == body
      invariant old(Works(fd.schedule)) ==> Works(fd.schedule)
      invariant old(Works(save.schedule)) ==> Works(save.schedule)
      invariant enough ==> AfterMoving(old(fd.schedule), NonNegative(fileSize), BUFFER_SIZE)
                           == AfterMoving(fd.schedule, NonNegative(fileSize) - bytesReceived, BUFFER_SIZE)
      decreases fileSize - bytesReceived
    {
      var remaining := fileSize - bytesReceived;
      var toRead := if remaining < BUFFER_SIZE then remaining else BUFFER_SIZE;
      ghost var left := fd.input;
      var bytesRead, buffer := fd.Read(toRead);
      assert body + left == body + buffer + fd.input;
      body := body + buffer;
      if bytesRead <= 0 {
        return false, body;
      }
      ok := WriteAll(save, buffer);
      if !ok {
        return false, body;
      }
      bytesReceived := bytesReceived + bytesRead;
    }
    ok := true;
  }

  // The bytes that one read of a size header takes off a stream.
  function HeaderLength(schedule: seq<int>, stream: bytes): (n: nat)
    ensures n <= |stream| && n <= LONG_SIZE
  {
    NonNegative(Moved(schedule, Smaller(LONG_SIZE, |stream|)))
  }

  // The file that receiveFile takes and what it leaves, when no call fails. `garbage` is what the size variable holds
  // before it is read: a short read of the header, or the end of the stream, leaves part of it there.
  function TakenBy(schedule: seq<int>, stream: bytes, garbage: bytes): (r: Option<(bytes, bytes)>)
    requires |garbage| == LONG_SIZE
    ensures r.Some? ==> |stream| == HeaderLength(schedule, stream) + |r.value.0| + |r.value.1|
  {
    var h := HeaderLength(schedule, stream);
    var n, rest := NonNegative(DecodeLong(stream[..h] + garbage[h..])), stream[h..];
    if n <= |rest| then Some((rest[..n], rest[n..])) else None
  }

  // receiveFile, saving to a fresh or truncated file (null: it cannot be created).
  method ReceiveFile(fd: Descriptor, save: Descriptor?, garbage: bytes)
    returns (result: int, ghost header: bytes, ghost body: bytes)
    requires fd != save && |garbage| == LONG_SIZE && (save != null ==> save.output == [])
    modifies fd`input, fd`schedule
    modifies if save == null then {} else {save}
    ensures result == 0 || result == -1
    ensures old(Works(fd.schedule)) ==> Works(fd.schedule)
    // what was taken off the stream, and what was saved of it
    ensures old(fd.input) == header + (body + fd.input)
    ensures |header| == NonNegative(old(Moved(fd.schedule, Smaller(LONG_SIZE, |fd.input|))))
    ensures save != null ==> save.output <= body
    ensures result == 0 ==> save != null && save.output == body
    ensures result == 0 ==> |body| == NonNegative(DecodeLong(header + garbage[|header|..]))
    ensures result == 0 ==> fd.schedule == AfterMoving(old(Rest(fd.schedule)), |body|, BUFFER_SIZE)
    // when no call fails
    ensures save != null && old(Works(fd.schedule)) && old(Works(save.schedule)) ==>
              match old(TakenBy(fd.schedule, fd.input, garbage))
              case Some(p) => result == 0 && save.output == p.0 && fd.input == p.1
              case None => result == -1
  {
    hide DecodeLong, Works, Moved, Rest, AfterMoving;
    header, body := [], [];
    ghost var all, schedule := fd.input, fd.schedule;
    var n, data := fd.Read(LONG_SIZE);
    header := data;
    Split(all, header, fd.input);
    if n < 0 || save == null {
      return -1, header, body;
    }
    var fileSize := DecodeLong(data + garbage[|data|..]);
    ghost var stream := fd.input;
    var ok;
    ok, body := ReceiveBody(fd, save, fileSize);
    if ok {
      Split(stream, body, fd.input);
    }
    result := if ok then 0 else -1;
  }

  lemma Split(all: bytes, front: bytes, rest: bytes)
    requires all == front + rest
    ensures all[..|front|] == front && all[|front|..] == rest
  {
  }

  // With a whole header, the frame on the stream is taken, or there is none.
  lemma WholeHeaderTaken(schedule: seq<int>, stream: bytes, garbage: bytes)
    requires |garbage| == LONG_SIZE && |stream| >= LONG_SIZE && Moved(schedule, LONG_SIZE) == LONG_SIZE
    ensures TakenBy(schedule, stream, garbage) == Received(stream)
  {
    hide DecodeLong;
    assert stream[..LONG_SIZE] + garbage[LONG_SIZE..] == stream[..LONG_SIZE];
  }

  // ----- Any number of files, one after the other -----

  lemma {:induction false} FramesConcat(a: seq<bytes>, b: seq<bytes>)
    ensures Frames(a + b) == Frames(a) + Frames(b)
  {
    if a == [] {
      assert a + b == b;
    } else {
      assert (a + b)[1..] == a[1..] + b;
      FramesConcat(a[1..], b);
      assert Frame(a[0]) + (Frames(a[1..]) + Frames(b)) == Frame(a[0]) + Frames(a[1..]) + Frames(b);
    }
  }

  // Every header of these files goes out in one piece.
  predicate SendsHeaders(schedule: seq<int>, files: seq<bytes>, schedules: seq<seq<int>>)
    requires |files| == |schedules|
    decreases |files|
  {
    files == [] || (Moved(schedule, LONG_SIZE) == LONG_SIZE
                    && SendsHeaders(AfterSending(Rest(schedule), schedules[0], |files[0]|), files[1..], schedules[1..]))
  }

  // sendFile(fd, path, getFileSize(path)) for one path after the other, each file read through its own schedule. The
  // frames are on the stream afterwards if and only if every header went out in one piece.
  method SendFiles(fd: Descriptor, files: seq<bytes>, schedules: seq<seq<int>>)
    requires Works(fd.schedule) && |files| == |schedules| && forall i :: 0 <= i < |files| ==> Works(schedules[i])
    modifies fd`output, fd`schedule
    ensures fd.output == old(fd.output) + Frames(files) <==> SendsHeaders(old(fd.schedule), files, schedules)
  {
    hide Works, Frame, EncodeLong, Moved, Rest, AfterSending;
    ghost var whole := true;
    assert fd.output + Frames([]) == fd.output;
    assert files[0..] == files && schedules[0..] == schedules;
    for i := 0 to |files|
      invariant Works(fd.schedule)
      invariant whole ==> fd.output == old(fd.output) + Frames(files[..i])
      invariant !whole ==> |fd.output| < |old(fd.output)| + |Frames(files[..i])|
      invariant SendsHeaders(old(fd.schedule), files, schedules)
                <==> whole && SendsHeaders(fd.schedule, files[i..], schedules[i..])
    {
      ghost var before, schedule := fd.output, fd.schedule;
      var file := new Descriptor(files[i], schedules[i]);
      var result := SendFile(fd, file, GetFileSize(files[i]));
      var moved := Moved(schedule, LONG_SIZE);
      MovesSome(schedule, LONG_SIZE);
      FrameSent(before, files[i], moved, fd.output);
      OneMoreFrame(old(fd.output), files, i);
      assert files[i..][1..] == files[i + 1..] && schedules[i..][1..] == schedules[i + 1..];
      whole := whole && moved == LONG_SIZE;
    }
    assert files[..|files|] == files;
  }

  lemma FrameSent(before: bytes, contents: bytes, n: nat, after: bytes)
    requires n <= LONG_SIZE && after == before + EncodeLong(GetFileSize(contents))[..n] + contents
    ensures n == LONG_SIZE ==> after == before + Frame(contents)
    ensures n < LONG_SIZE ==> |after| < |before| + |Frame(contents)|
  {
    hide EncodeLong;
    var header := EncodeLong(GetFileSize(contents));
    assert n == LONG_SIZE ==> header[..n] == header;
    assert before + header + contents == before + (header + contents);
  }

  lemma OneMoreFrame(before: bytes, files: seq<bytes>, i: nat)
    requires i < |files|
    ensures before + Frames(files[..i]) + Frame(files[i]) == before + Frames(files[..i + 1])
    ensures |Frames(files[..i + 1])| == |Frames(files[..i])| + |Frame(files[i])|
  {
    hide Frame;
    assert files[..i] + [files[i]] == files[..i + 1];
    FramesConcat(files[..i], [files[i]]);
    var last := [files[i]];
    assert last[1..] == [] && Frame(files[i]) + [] == Frame(files[i]);
  }

  // Every header of these files arrives in one piece.
  predicate ReceivesHeaders(schedule: seq<int>, files: seq<bytes>)
    decreases |files|
  {
    files == [] || (Moved(schedule, LONG_SIZE) == LONG_SIZE
                    && ReceivesHeaders(AfterMoving(Rest(schedule), |files[0]|, BUFFER_SIZE), files[1..]))
  }

  // The files taken one after the other, each with its own content of the size variable, when no call on the stream
  // fails.
  function AllTakenBy(schedule: seq<int>, stream: bytes, garbage: seq<bytes>): Option<(seq<bytes>, bytes)>
    requires forall i :: 0 <= i < |garbage| ==> |garbage[i]| == LONG_SIZE
    decreases |garbage|
  {
    if garbage == [] then Some(([], stream))
    else
      match TakenBy(schedule, stream, garbage[0])
      case None => None
      case Some(first) =>
        match AllTakenBy(AfterMoving(Rest(schedule), |first.0|, BUFFER_SIZE), first.1, garbage[1..])
        case None => None
        case Some(others) => Some(([first.0] + others.0, others.1))
  }

  // receiveFile for one path after the other, until one fails.
  method ReceiveFiles(fd: Descriptor, writes: seq<seq<int>>, garbage: seq<bytes>) returns (files: Option<seq<bytes>>)
    requires Works(fd.schedule) && |garbage| == |writes|
    requires forall i :: 0 <= i < |writes| ==> |garbage[i]| == LONG_SIZE && Works(writes[i])
    modifies fd`input, fd`schedule
    ensures match old(AllTakenBy(fd.schedule, fd.input, garbage))
            case Some(all) => files == Some(all.0) && fd.input == all.1
            case None => files == None
  {
    hide Works, Moved, Rest, AfterMoving, TakenBy;
    var done: seq<bytes> := [];
    ghost var all := AllTakenBy(fd.schedule, fd.input, garbage);
    Nothing(all);
    assert garbage[0..] == garbage;
    for i := 0 to |writes|
      invariant Works(fd.schedule) && |done| == i
      invariant all == After(done, AllTakenBy(fd.schedule, fd.input, garbage[i..]))
    {
      ghost var stream, schedule := fd.input, fd.schedule;
      var file := new Descriptor([], writes[i]);
      var result, _, body := ReceiveFile(fd, file, garbage[i]);
      NextTaken(done, schedule, stream, garbage[i..]);
      assert garbage[i..][1..] == garbage[i + 1..];
      if result != 0 {
        return None;
      }
      done := done + [file.output];
    }
    files := Some(done);
    assert done + [] == done && garbage[|writes|..] == [];
  }

  // What has been received, and what is still to come.
  function After(done: seq<bytes>, more: Option<(seq<bytes>, bytes)>): Option<(seq<bytes>, bytes)> {
    match more
    case None => None
    case Some(m) => Some((done + m.0, m.1))
  }

  lemma Nothing(more: Option<(seq<bytes>, bytes)>)
    ensures After([], more) == more
  {
    if more.Some? {
      assert [] + more.value.0 == more.value.0;
    }
  }

  lemma NextTaken(done: seq<bytes>, schedule: seq<int>, stream: bytes, garbage: seq<bytes>)
    requires garbage != [] && forall i :: 0 <= i < |garbage| ==> |garbage[i]| == LONG_SIZE
    ensures After(done, AllTakenBy(schedule, stream, garbage))
            == match TakenBy(schedule, stream, garbage[0])
               case None => None
               case Some(p) =>
                 After(done + [p.0], AllTakenBy(AfterMoving(Rest(schedule), |p.0|, BUFFER_SIZE), p.1, garbage[1..]))
  {
    hide TakenBy, AfterMoving, Rest;
    if TakenBy(schedule, stream, garbage[0]).Some? {
      var (contents, rest) := TakenBy(schedule, stream, garbage[0]).value;
      var others := AllTakenBy(AfterMoving(Rest(schedule), |contents|, BUFFER_SIZE), rest, garbage[1..]);
      if others.Some? {
        assert done + ([contents] + others.value.0) == done + [contents] + others.value.0;
      }
    }
  }

  // ----- When the files that were sent are the files that are received -----

  lemma {:induction false} ReceivedLength(n: nat, stream: bytes)
    requires ReceivedAll(n, stream).Some?
    ensures var (files, rest) := ReceivedAll(n, stream).value;
            |files| == n && |stream| == |Frames(files)| + |rest|
  {
    if n > 0 {
      var (contents, behind) := Received(stream).value;
      ReceivedLength(n - 1, behind);
      var others := ReceivedAll(n - 1, behind).value.0;
      FirstFrame(contents, others);
      assert |stream| == LONG_SIZE + |contents| + |behind|;
    }
  }

  lemma FirstFrame(contents: bytes, others: seq<bytes>)
    ensures |Frames([contents] + others)| == LONG_SIZE + |contents| + |Frames(others)|
  {
    hide EncodeLong;
    assert ([contents] + others)[1..] == others;
  }

  // No more than whole frames are taken, and less if the first header comes in pieces.
  lemma {:induction false} TakenLength(schedule: seq<int>, stream: bytes, garbage: seq<bytes>)
    requires forall i :: 0 <= i < |garbage| ==> |garbage[i]| == LONG_SIZE
    requires AllTakenBy(schedule, stream, garbage).Some?
    ensures var (files, rest) := AllTakenBy(schedule, stream, garbage).value;
            && |files| == |garbage| && |stream| <= |Frames(files)| + |rest|
            && (garbage != [] && HeaderLength(schedule, stream) < LONG_SIZE ==> |stream| < |Frames(files)| + |rest|)
    decreases |garbage|
  {
    hide TakenBy, HeaderLength, AfterMoving, Rest;
    if garbage != [] {
      var (contents, behind) := TakenBy(schedule, stream, garbage[0]).value;
      var left := AfterMoving(Rest(schedule), |contents|, BUFFER_SIZE);
      TakenLength(left, behind, garbage[1..]);
      FirstFrame(contents, AllTakenBy(left, behind, garbage[1..]).value.0);
    }
  }

  lemma SameFirst(first: bytes, others: seq<bytes>, first': bytes, others': seq<bytes>)
    ensures [first] + others == [first'] + others' <==> first == first' && others == others'
  {
    assert ([first] + others)[0] == first && ([first] + others)[1..] == others;
    assert ([first'] + others')[0] == first' && ([first'] + others')[1..] == others';
  }

  // From a stream that carries that many frames, exactly the files in them are received, and exactly the frames taken,
  // if and only if every header arrives in one piece, whatever the size variable held before.
  lemma {:induction false} ReceivedExactly(schedule: seq<int>, stream: bytes, garbage: seq<bytes>)
    requires forall i :: 0 <= i < |garbage| ==> |garbage[i]| == LONG_SIZE
    requires ReceivedAll(|garbage|, stream).Some?
    ensures AllTakenBy(schedule, stream, garbage) == ReceivedAll(|garbage|, stream)
            <==> ReceivesHeaders(schedule, ReceivedAll(|garbage|, stream).value.0)
    decreases |garbage|
  {
    if garbage != [] {
      HasHeader(stream);
      if Moved(schedule, LONG_SIZE) == LONG_SIZE {
        WholeHeaderTaken(schedule, stream, garbage[0]);
        hide TakenBy, Received, AfterMoving, Rest, Moved;
        var (contents, behind) := Received(stream).value;
        var left := AfterMoving(Rest(schedule), |contents|, BUFFER_SIZE);
        ReceivedExactly(left, behind, garbage[1..]);
        var others := ReceivedAll(|garbage| - 1, behind).value.0;
        assert ([contents] + others)[1..] == others;
        if AllTakenBy(left, behind, garbage[1..]).Some? {
          SameFirst(contents, AllTakenBy(left, behind, garbage[1..]).value.0, contents, others);
        }
      } else {
        ShortHeader(schedule, stream, garbage);
      }
    }
  }

  lemma ShortHeader(schedule: seq<int>, stream: bytes, garbage: seq<bytes>)
    requires garbage != [] && forall i :: 0 <= i < |garbage| ==> |garbage[i]| == LONG_SIZE
    requires ReceivedAll(|garbage|, stream).Some? && |stream| >= LONG_SIZE && Moved(schedule, LONG_SIZE) != LONG_SIZE
    ensures AllTakenBy(schedule, stream, garbage) != ReceivedAll(|garbage|, stream)
    ensures !ReceivesHeaders(schedule, ReceivedAll(|garbage|, stream).value.0)
  {
    assert HeaderLength(schedule, stream) < LONG_SIZE;
    hide TakenBy, Received, AfterMoving, Rest, Moved, HeaderLength;
    ReceivedLength(|garbage|, stream);
    if AllTakenBy(schedule, stream, garbage).Some? {
      TakenLength(schedule, stream, garbage);
    }
  }

  // Files within the size limit that are sent over a stream and read back: they come out unchanged, with what follows
  // them left on the stream, if and only if every header arrives in one piece.
  lemma SentIsReceived(files: seq<bytes>, rest: bytes, schedule: seq<int>, garbage: seq<bytes>)
    requires |garbage| == |files| && forall i :: 0 <= i < |files| ==> |files[i]| <= 10_000_000
    requires forall i :: 0 <= i < |garbage| ==> |garbage[i]| == LONG_SIZE
    ensures AllTakenBy(schedule, Frames(files) + rest, garbage) == Some((files, rest))
        <==> ReceivesHeaders(schedule, files)
  {
    hide AllTakenBy, ReceivesHeaders, Frames, ReceivedAll;
    FilesAreRecovered(files, rest);
    ReceivedExactly(schedule, Frames(files) + rest, garbage);
  }

  lemma HasHeader(stream: bytes)
    ensures Received(stream).Some? ==> |stream| >= LONG_SIZE
  {
  }
}
