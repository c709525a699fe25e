/**
 * The frame-upload endpoint (webcam/server.py): it sanitises the camera id
 * into a folder-safe name, builds `<data dir>/<camera id>/<ts_ms>.jpg`, and
 * answers with the saved path or a 500 error.
 *
 * Python's `str.isalnum` accepts every Unicode letter and digit; here it is
 * restricted to the ASCII letters and digits.
 */
module FrameUpload {
  import opened Common
  import Decimal

  /** Camera id used when the form field is omitted or nothing of it survives. */
  const DefaultCameraId: string := "default"

  /** Data directory used when FRAME_SAVE_DIR is unset. */
  const DefaultDataDir: string := "data"

  predicate IsAsciiAlnum(c: char)
  {
    'a' <= c <= 'z' || 'A' <= c <= 'Z' || '0' <= c <= '9'
  }

  /** Characters that may appear in a camera folder name. */
  predicate IsAllowed(c: char)
  {
    IsAsciiAlnum(c) || c == '-' || c == '_'
  }

  predicate AllAllowed(s: string)
  {
    forall i :: 0 <= i < |s| ==> IsAllowed(s[i])
  }

  /** The allowed characters of `s`, in their original order. */
  function KeepAllowed(s: string): (r: string)
    ensures AllAllowed(r)
    ensures |r| <= |s|
  {
    if s == [] then []
    else if IsAllowed(s[0]) then [s[0]] + KeepAllowed(s[1..])
    else KeepAllowed(s[1..])
  }

  /** The folder-safe camera id: the kept characters, or "default" when none are kept. */
  function SanitizeCameraId(s: string): (r: string)
    ensures r != []
    ensures AllAllowed(r)
  {
    var kept := KeepAllowed(s);
    if kept == [] then DefaultCameraId else kept
  }

  /** `a` is obtained from `b` by deleting characters. */
  predicate IsSubsequence(a: string, b: string)
  {
    if a == [] then true
    else if b == [] then false
    else if a[0] == b[0] then IsSubsequence(a[1..], b[1..])
    else IsSubsequence(a, b[1..])
  }

  /** Filtering keeps characters in order and inserts nothing. */
  lemma {:induction false} KeepAllowedIsSubsequence(s: string)
    ensures IsSubsequence(KeepAllowed(s), s)
  {
    if s != [] {
      KeepAllowedIsSubsequence(s[1..]);
      if IsAllowed(s[0]) {
        assert ([s[0]] + KeepAllowed(s[1..]))[1..] == KeepAllowed(s[1..]);
      } else {
        var r := KeepAllowed(s[1..]);
        if r != [] {
          assert IsAllowed(r[0]);
        }
      }
    }
  }

  /** Filtering works character by character: filtering a concatenation concatenates the filtered parts. */
  lemma {:induction false} KeepAllowedConcat(s: string, t: string)
    ensures KeepAllowed(s + t) == KeepAllowed(s) + KeepAllowed(t)
  {
    if s != [] {
      assert (s + t)[0] == s[0];
      assert (s + t)[1..] == s[1..] + t;
      KeepAllowedConcat(s[1..], t);
    } else {
      assert s + t == t;
    }
  }

  /** A string made only of allowed characters is left as it is by the filter. */
  lemma {:induction false} KeepAllowedFixesAllowed(s: string)
    requires AllAllowed(s)
    ensures KeepAllowed(s) == s
  {
    if s != [] {
      KeepAllowedFixesAllowed(s[1..]);
    }
  }

  /** The filter changes a string exactly when the string holds a character that is not allowed. */
  lemma KeepAllowedUnchangedIff(s: string)
    ensures KeepAllowed(s) == s <==> AllAllowed(s)
  {
    if AllAllowed(s) {
      KeepAllowedFixesAllowed(s);
    }
  }

  /** The result is either "default" or a subsequence of the input. */
  lemma SanitizeIsSubsequenceOrDefault(s: string)
    ensures var r := SanitizeCameraId(s);
            (r == DefaultCameraId && KeepAllowed(s) == []) || (r == KeepAllowed(s) && IsSubsequence(r, s))
  {
    KeepAllowedIsSubsequence(s);
  }

  /** A non-empty id made only of allowed characters passes through unchanged. */
  lemma SanitizeKeepsCleanIds(s: string)
    requires s != [] && AllAllowed(s)
    ensures SanitizeCameraId(s) == s
  {
    KeepAllowedFixesAllowed(s);
  }

  /** Sanitising twice is sanitising once. */
  lemma SanitizeIdempotent(s: string)
    ensures SanitizeCameraId(SanitizeCameraId(s)) == SanitizeCameraId(s)
  {
    SanitizeKeepsCleanIds(SanitizeCameraId(s));
  }

  /** A sanitised id has no path separator and no dot, so it names one directory, never "." or "..". */
  lemma SanitizedIdIsOnePathSegment(s: string)
    ensures '/' !in SanitizeCameraId(s) && '.' !in SanitizeCameraId(s)
    ensures SanitizeCameraId(s) != "." && SanitizeCameraId(s) != ".."
  {
    var r := SanitizeCameraId(s);
    assert forall i :: 0 <= i < |r| ==> r[i] != '/' && r[i] != '.';
  }

  /**
   * The form field with its default. The web framework reads a field sent
   * empty as omitted, so both give "default".
   */
  function CameraIdField(field: Option<string>): (r: string)
    ensures r != []
    ensures field.Some? && field.value != [] ==> r == field.value
    ensures (field.None? || field.value == []) ==> r == DefaultCameraId
  {
    if field.Some? && field.value != [] then field.value else DefaultCameraId
  }

  /**
   * The timestamp with its default: the client's `ts_ms` when sent
   * non-empty, else the clock rendered in whole milliseconds.
   */
  function TimestampField(field: Option<string>, clockMs: nat): (r: string)
    ensures r != []
    ensures field.Some? && field.value != [] ==> r == field.value
    ensures (field.None? || field.value == []) ==> r == Decimal.Digits(clockMs)
    ensures (field.None? || field.value == []) ==> Decimal.AllDigits(r) && Decimal.Value(r) == clockMs
  {
    Decimal.ValueOfDigits(clockMs);
    if field.Some? && field.value != [] then field.value else Decimal.Digits(clockMs)
  }

  /** `<data dir>/<camera id>/<ts_ms>.jpg`, as the path renders. */
  function OutputPath(dataDir: string, cameraId: string, tsMs: string): (r: string)
    ensures |r| == |dataDir| + |cameraId| + |tsMs| + 6
    ensures r[|r| - 4..] == ".jpg"
  {
    var ext := ".jpg";
    var r := dataDir + "/" + cameraId + "/" + tsMs + ext;
    assert r[|r| - 4..] == ext;
    r
  }

  /** What the file write did: finished, or raised with a message. */
  datatype WriteOutcome = Written | WriteRaised(message: string)

  /** The JSON answer: `{"ok": true, "saved": path}` or a 500 with `{"ok": false, "error": message}`. */
  datatype UploadResponse =
    | Saved(path: string)
    | Failed(status: int, error: string)
  {
    function Ok(): bool { Saved? }
    function Status(): int { if Saved? then 200 else status }
  }

  /** The upload handler, with the clock and the file write as inputs. */
  function UploadFrame(dataDir: string, cameraField: Option<string>, tsField: Option<string>,
                       clockMs: nat, write: WriteOutcome): (r: UploadResponse)
    ensures r.Ok() <==> write.Written?
    ensures write.WriteRaised? ==> r.Status() == 500 && r.error == write.message
    ensures r.Saved? ==> r.Status() == 200
  {
    var cameraId := SanitizeCameraId(CameraIdField(cameraField));
    var outPath := OutputPath(dataDir, cameraId, TimestampField(tsField, clockMs));
    match write
    case Written => Saved(outPath)
    case WriteRaised(message) => Failed(500, message)
  }

  /**
   * The rendered path splits back into its parts: the data directory, a
   * separator, the camera id, a separator, then the file name.
   */
  lemma OutputPathSegments(dataDir: string, cameraId: string, tsMs: string)
    ensures var p := OutputPath(dataDir, cameraId, tsMs);
            var n := |dataDir| + 1 + |cameraId|;
            && |p| == n + 1 + |tsMs| + 4
            && p[..|dataDir|] == dataDir && p[|dataDir|] == '/'
            && p[|dataDir| + 1..n] == cameraId && p[n] == '/'
            && p[n + 1..] == tsMs + ".jpg"
  {
    var sep, ext := "/", ".jpg";
    var p := dataDir + sep + cameraId + sep + tsMs + ext;
    var n := |dataDir| + 1 + |cameraId|;
    assert p == dataDir + (sep + (cameraId + (sep + (tsMs + ext))));
    assert p[..|dataDir|] == dataDir;
    assert p[|dataDir|..] == sep + (cameraId + (sep + (tsMs + ext)));
    assert p[|dataDir| + 1..] == cameraId + (sep + (tsMs + ext));
    assert p[n..] == sep + (tsMs + ext);
  }

  /**
   * A successful upload is saved under the sanitised id, which is a single
   * non-empty directory name: the frame lands in a direct sub-folder of the
   * data directory, named by the timestamp with ".jpg" appended.
   */
  lemma SavedPathShape(dataDir: string, cameraField: Option<string>, tsField: Option<string>, clockMs: nat)
    ensures var r := UploadFrame(dataDir, cameraField, tsField, clockMs, Written);
            var id := SanitizeCameraId(CameraIdField(cameraField));
            && r.Saved?
            && r.path == OutputPath(dataDir, id, TimestampField(tsField, clockMs))
            && id != [] && '/' !in id && id != "." && id != ".."
  {
    SanitizedIdIsOnePathSegment(CameraIdField(cameraField));
  }

  /** Without a camera id field, or with an empty one, the frame goes to the "default" folder. */
  lemma OmittedCameraIdIsDefault(dataDir: string, tsField: Option<string>, clockMs: nat)
    ensures UploadFrame(dataDir, None, tsField, clockMs, Written)
         == UploadFrame(dataDir, Some(""), tsField, clockMs, Written)
         == Saved(OutputPath(dataDir, DefaultCameraId, TimestampField(tsField, clockMs)))
  {
    SanitizeKeepsCleanIds(DefaultCameraId);
  }

  /**
   * With the default data directory, no camera id and no timestamp, the
   * frame is saved as `data/default/<clock ms>.jpg`.
   */
  lemma DefaultUploadPath(clockMs: nat)
    ensures UploadFrame(DefaultDataDir, None, None, clockMs, Written)
         == Saved(OutputPath("data", "default", Decimal.Digits(clockMs)))
  {
    SanitizeKeepsCleanIds(DefaultCameraId);
  }
}
