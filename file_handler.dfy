/**
 * The image transfer for one task: look up the device of a post, check the
 * image directory `root/post/time/img`, select the image files in it, push
 * each one and fold the push results into one flag and status code. The
 * device mapping, the file system and the pushes are inputs.
 */
module FileTransfer {
  import opened Wrappers
  import Text
  import Seqs
  import opened Adb

  const PartialSuccess: string := "PARTIAL_SUCCESS"

  /** `os.path.join(a, b)` on POSIX paths: an absolute `b` replaces `a`, and one `/` separates them. */
  function PathJoin(a: string, b: string): string {
    if |b| > 0 && b[0] == '/' then b
    else if a == "" || a[|a| - 1] == '/' then a + b
    else a + "/" + b
  }

  /** `os.path.join(root, post, time, 'img')`. */
  function SourceDir(rootDir: string, postName: string, timeStr: string): string {
    PathJoin(PathJoin(PathJoin(rootDir, postName), timeStr), "img")
  }

  /** A file name that ends in `.png`, `.jpg` or `.jpeg`, ignoring case. */
  predicate IsImageName(name: string) {
    var lower := Text.Lower(name);
    Text.EndsWith(lower, ".png") || Text.EndsWith(lower, ".jpg") || Text.EndsWith(lower, ".jpeg")
  }

  /** The extensions of the image test, in lower case. */
  const ImageExtensions: seq<string> := [".png", ".jpg", ".jpeg"]

  /**
   * The image test ignores letter case: a name is an image exactly when some
   * tail of it lower-cases to one of the extensions.
   */
  lemma ImageNameCaseInsensitive(name: string)
    ensures IsImageName(name) <==> exists k :: 0 <= k <= |name| && Text.Lower(name[k..]) in ImageExtensions
  {
    if IsImageName(name) {
      var e :| e in ImageExtensions && Text.EndsWith(Text.Lower(name), e);
      Text.EndsWithLower(name, e);
      var k := |name| - |e|;
      assert Text.Lower(name[k..]) in ImageExtensions;
    }
    if k :| 0 <= k <= |name| && Text.Lower(name[k..]) in ImageExtensions {
      ImageTail(name, k);
    }
  }

  /** A name with a tail that lower-cases to an image extension is an image. */
  lemma ImageTail(name: string, k: nat)
    requires k <= |name| && Text.Lower(name[k..]) in ImageExtensions
    ensures IsImageName(name)
  {
    var e := Text.Lower(name[k..]);
    Text.LowerFacts(name[k..]);
    Text.EndsWithLower(name, e);
  }

  /** A name and its lower-cased form are images alike. */
  lemma ImageNameOfLower(name: string)
    ensures IsImageName(Text.Lower(name)) <==> IsImageName(name)
  {
    Text.LowerIdempotent(name);
  }

  /** Upper-case and mixed-case extensions are images. */
  lemma ImageNameExamples()
    ensures IsImageName("IMG.JPG") && IsImageName("a.Jpeg")
  {
    assert Text.Lower("IMG.JPG") == "img.jpg";
    assert Text.Lower("a.Jpeg") == "a.jpeg";
  }

  /** A name whose image extension is not at its end, or not after a dot, is not an image. */
  lemma NotImageNameExamples()
    ensures !IsImageName("a.png.bak") && !IsImageName("PNG")
  {
    assert Text.Lower("a.png.bak") == "a.png.bak";
    assert Text.Lower("PNG") == "png";
  }

  /** The image files of a directory listing, in listing order. */
  function SelectImages(names: seq<string>): seq<string> {
    Seqs.Filter(names, IsImageName)
  }

  /** Exactly the image names of the listing are selected, in the order listed. */
  lemma SelectImagesExact(names: seq<string>)
    ensures var images := SelectImages(names);
      && Seqs.IsSubsequence(images, names)
      && (forall i :: 0 <= i < |images| ==> IsImageName(images[i]))
      && (forall i :: 0 <= i < |names| ==> (names[i] in images <==> IsImageName(names[i])))
  {
    Seqs.FilterIsSubsequence(names, IsImageName);
  }

  /** A listing made only of images is selected whole; one with no image selects nothing (the INVALID_PATH guard). */
  lemma SelectImagesExtremes(names: seq<string>)
    ensures (forall i :: 0 <= i < |names| ==> IsImageName(names[i])) ==> SelectImages(names) == names
    ensures (forall i :: 0 <= i < |names| ==> !IsImageName(names[i])) ==> SelectImages(names) == []
  {
    Seqs.FilterExtremes(names, IsImageName);
  }

  /** The device of a post; a missing entry and an empty one (falsy in Python) both give `None`. */
  function DeviceFor(deviceMapping: map<string, string>, postName: string): Option<string> {
    if postName in deviceMapping && deviceMapping[postName] != "" then Some(deviceMapping[postName]) else None
  }

  /**
   * The verdict on the push results: true and SUCCESS when every push
   * succeeded, PARTIAL_SUCCESS when some did, and otherwise the status of
   * the first push.
   */
  function Classify(results: seq<(bool, string)>): (r: (bool, string))
    ensures r.0 <==> forall i :: 0 <= i < |results| ==> results[i].0
    ensures (forall i :: 0 <= i < |results| && !results[i].0 ==> results[i].1 != Success) ==> (r.0 <==> r.1 == Success)
    ensures r.0 ==> r.1 == Success
    ensures !r.0 && (exists i :: 0 <= i < |results| && results[i].0) ==> r.1 == PartialSuccess
    ensures results != [] && (forall i :: 0 <= i < |results| ==> !results[i].0) ==> r.1 == results[0].1
  {
    if forall i :: 0 <= i < |results| ==> results[i].0 then (true, Success)
    else if exists i :: 0 <= i < |results| && results[i].0 then (false, PartialSuccess)
    else (false, results[0].1)
  }

  /** One `push_file(device_id, source_path)` call. */
  datatype PushCall = PushCall(deviceId: string, sourcePath: string)

  /** The calls made and the results recorded so far, and whether a push raised. */
  datatype PushRun = PushRun(calls: seq<PushCall>, results: seq<(bool, string)>, raised: bool)

  /** The first `n` passes of the push loop; `push(k)` is the outcome of the k-th push. */
  function PushPrefix(deviceId: string, sourceDir: string, images: seq<string>, push: nat -> PushOutcome, n: nat): PushRun
    requires n <= |images|
  {
    if n == 0 then PushRun([], [], false)
    else
      var p := PushPrefix(deviceId, sourceDir, images, push, n - 1);
      if p.raised then p
      else
        var call := PushCall(deviceId, PathJoin(sourceDir, images[n - 1]));
        match push(n - 1)
        case PushRaised => PushRun(p.calls + [call], p.results, true)
        case Pushed(ok, st) => PushRun(p.calls + [call], p.results + [(ok, st)], false)
  }

  /** Once a push has raised, the loop is over: later passes change nothing. */
  lemma {:induction false} RaisedStays(deviceId: string, sourceDir: string, images: seq<string>, push: nat -> PushOutcome, n: nat, m: nat)
    requires n <= m <= |images|
    requires PushPrefix(deviceId, sourceDir, images, push, n).raised
    ensures PushPrefix(deviceId, sourceDir, images, push, m) == PushPrefix(deviceId, sourceDir, images, push, n)
    decreases m
  {
    if m > n {
      RaisedStays(deviceId, sourceDir, images, push, n, m - 1);
    }
  }

  /**
   * The push loop makes one call per image, in order, with the image's path
   * in the source directory, and records each result, until a push raises;
   * the call that raised is the last one made.
   */
  lemma {:induction false} PushPrefixFacts(deviceId: string, sourceDir: string, images: seq<string>, push: nat -> PushOutcome, n: nat)
    requires n <= |images|
    ensures var p := PushPrefix(deviceId, sourceDir, images, push, n);
      && |p.calls| <= n
      && (forall i :: 0 <= i < |p.calls| ==> p.calls[i] == PushCall(deviceId, PathJoin(sourceDir, images[i])))
      && (!p.raised <==> forall i :: 0 <= i < n ==> push(i).Pushed?)
      && (!p.raised ==> |p.calls| == n && |p.results| == n)
      && (!p.raised ==> forall i :: 0 <= i < n ==> p.results[i] == (push(i).success, push(i).status))
      && (p.raised ==> |p.calls| > 0 && push(|p.calls| - 1).PushRaised?)
      && (p.raised ==> forall i :: 0 <= i < |p.calls| - 1 ==> push(i).Pushed?)
    decreases n
  {
    if n > 0 {
      PushPrefixFacts(deviceId, sourceDir, images, push, n - 1);
    }
  }

  datatype TransferReport = TransferReport(success: bool, status: string, calls: seq<PushCall>)

  /** `transfer_images(post_name, time_str)` as a function of its inputs. */
  function Transfer(rootDir: string, postName: string, timeStr: string, deviceMapping: map<string, string>,
                    pathExists: string -> bool, listDir: string -> Option<seq<string>>,
                    push: nat -> PushOutcome): TransferReport
  {
    match DeviceFor(deviceMapping, postName)
    case None => TransferReport(false, DeviceNotFound, [])
    case Some(deviceId) =>
      var sourceDir := SourceDir(rootDir, postName, timeStr);
      if !pathExists(sourceDir) then TransferReport(false, InvalidPath, [])
      else
        match listDir(sourceDir)
        case None => TransferReport(false, Failed, [])
        case Some(names) =>
          var images := SelectImages(names);
          if images == [] then TransferReport(false, InvalidPath, [])
          else
            var p := PushPrefix(deviceId, sourceDir, images, push, |images|);
            if p.raised then TransferReport(false, Failed, p.calls)
            else
              var verdict := Classify(p.results);
              TransferReport(verdict.0, verdict.1, p.calls)
  }

  /**
   * The guards of a transfer, in order: an unknown post, a missing image
   * directory and an empty selection each fail with no push; a listing or
   * push that raises fails with FAILED.
   */
  lemma TransferGuards(rootDir: string, postName: string, timeStr: string, deviceMapping: map<string, string>,
                       pathExists: string -> bool, listDir: string -> Option<seq<string>>, push: nat -> PushOutcome)
    ensures var r := Transfer(rootDir, postName, timeStr, deviceMapping, pathExists, listDir, push);
      var sourceDir := SourceDir(rootDir, postName, timeStr);
      && (DeviceFor(deviceMapping, postName).None? ==> r == TransferReport(false, DeviceNotFound, []))
      && (DeviceFor(deviceMapping, postName).Some? && !pathExists(sourceDir) ==> r == TransferReport(false, InvalidPath, []))
      && (DeviceFor(deviceMapping, postName).Some? && pathExists(sourceDir) && listDir(sourceDir).None? ==>
            r == TransferReport(false, Failed, []))
      && ((DeviceFor(deviceMapping, postName).Some? && pathExists(sourceDir) && listDir(sourceDir).Some?
           && SelectImages(listDir(sourceDir).value) == []) ==> r == TransferReport(false, InvalidPath, []))
  {
  }

  /**
   * A transfer that gets to the pushes calls `push_file` once per selected
   * image, in order, and reports success only when every push succeeded;
   * otherwise it reports partial success, the first push's status, or FAILED
   * when a push raised.
   */
  lemma {:induction false} TransferPushes(rootDir: string, postName: string, timeStr: string, deviceMapping: map<string, string>,
                                          pathExists: string -> bool, listDir: string -> Option<seq<string>>, push: nat -> PushOutcome)
    requires DeviceFor(deviceMapping, postName).Some?
    requires pathExists(SourceDir(rootDir, postName, timeStr))
    requires listDir(SourceDir(rootDir, postName, timeStr)).Some?
    requires SelectImages(listDir(SourceDir(rootDir, postName, timeStr)).value) != []
    ensures var r := Transfer(rootDir, postName, timeStr, deviceMapping, pathExists, listDir, push);
      var deviceId := DeviceFor(deviceMapping, postName).value;
      var sourceDir := SourceDir(rootDir, postName, timeStr);
      var images := SelectImages(listDir(sourceDir).value);
      && |r.calls| <= |images|
      && (forall i :: 0 <= i < |r.calls| ==> r.calls[i] == PushCall(deviceId, PathJoin(sourceDir, images[i])))
      && ((forall i :: 0 <= i < |images| ==> push(i).Pushed?) ==>
            && |r.calls| == |images|
            && (r.success <==> forall i :: 0 <= i < |images| ==> push(i).success)
            && (r.success ==> r.status == Success)
            && (!r.success && (exists i :: 0 <= i < |images| && push(i).success) ==> r.status == PartialSuccess)
            && ((forall i :: 0 <= i < |images| ==> !push(i).success) ==> r.status == push(0).status))
      && (!(forall i :: 0 <= i < |images| ==> push(i).Pushed?) ==>
            && r == TransferReport(false, Failed, r.calls)
            && 0 < |r.calls| <= |images| && push(|r.calls| - 1).PushRaised?)
  {
    var deviceId := DeviceFor(deviceMapping, postName).value;
    var sourceDir := SourceDir(rootDir, postName, timeStr);
    var images := SelectImages(listDir(sourceDir).value);
    PushPrefixFacts(deviceId, sourceDir, images, push, |images|);
    var p := PushPrefix(deviceId, sourceDir, images, push, |images|);
    if !p.raised {
      assert forall i :: 0 <= i < |images| ==> p.results[i].0 == push(i).success;
      assert p.results[0].1 == push(0).status;
    }
  }

  /** `FileHandler`: the project root under which the image directories live. */
  class FileHandler {
    const rootDir: string

    constructor (rootDir: string)
      ensures this.rootDir == rootDir
    {
      this.rootDir := rootDir;
    }

    /** `transfer_images(post_name, time_str)`. */
    method TransferImages(postName: string, timeStr: string, deviceMapping: map<string, string>,
                          pathExists: string -> bool, listDir: string -> Option<seq<string>>,
                          push: nat -> PushOutcome) returns (success: bool, status: string, calls: seq<PushCall>)
      ensures TransferReport(success, status, calls) == Transfer(rootDir, postName, timeStr, deviceMapping, pathExists, listDir, push)
    {
      var device := DeviceFor(deviceMapping, postName);
      if device.None? {
        return false, DeviceNotFound, [];
      }
      var deviceId := device.value;
      var sourceDir := SourceDir(rootDir, postName, timeStr);
      if !pathExists(sourceDir) {
        return false, InvalidPath, [];
      }
      var listing := listDir(sourceDir);
      if listing.None? {
        return false, Failed, [];
      }
      var images := SelectImages(listing.value);
      if images == [] {
        return false, InvalidPath, [];
      }
      var results: seq<(bool, string)> := [];
      calls := [];
      var i := 0;
      while i < |images|
        invariant i <= |images|
        invariant PushPrefix(deviceId, sourceDir, images, push, i) == PushRun(calls, results, false)
      {
        var sourcePath := PathJoin(sourceDir, images[i]);
        calls := calls + [PushCall(deviceId, sourcePath)];
        match push(i)
        case PushRaised =>
          RaisedStays(deviceId, sourceDir, images, push, i + 1, |images|);
          return false, Failed, calls;
        case Pushed(ok, st) =>
          results := results + [(ok, st)];
        i := i + 1;
      }
      var verdict := Classify(results);
      success, status := verdict.0, verdict.1;
    }
  }
}
