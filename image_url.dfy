/** `getImageUrl`: where a stored meal image is served from, either through
    the CloudFront distribution or straight from the public S3 bucket. The
    process environment is passed in as a value. */
module ImageUrl {
  import opened Options

  /** The environment variables the function reads. */
  datatype Env = Env(
    cloudfrontUrl: Option<string>,   // NEXT_PUBLIC_CLOUDFRONT_URL
    region: Option<string>,          // AWS_REGION
    bucket: Option<string>)          // AWS_S3_BUCKET_NAME

  const ImagesPath: string := "/images/"

  /** A template-literal substitution: an unset variable prints as "undefined". */
  function Interpolate(v: Option<string>): string
  {
    match v
    case Some(s) => s
    case None => "undefined"
  }

  /** JavaScript truthiness of the CloudFront variable: set and non-empty. */
  predicate UsesCloudFront(env: Env)
  {
    env.cloudfrontUrl.Some? && env.cloudfrontUrl.value != ""
  }

  /** Everything before "/images/<imageName>" in the returned URL. */
  function Origin(env: Env): string
  {
    if UsesCloudFront(env) then env.cloudfrontUrl.value
    else "https://" + Interpolate(env.bucket) + ".s3." + Interpolate(env.region) + ".amazonaws.com"
  }

  function GetImageUrl(env: Env, imageName: string): (url: string)
    ensures UsesCloudFront(env) ==> url == env.cloudfrontUrl.value + ImagesPath + imageName
    ensures env.cloudfrontUrl.None? || env.cloudfrontUrl == Some("") ==>
      url == "https://" + Interpolate(env.bucket) + ".s3." + Interpolate(env.region)
             + ".amazonaws.com" + ImagesPath + imageName
    ensures |url| >= |ImagesPath + imageName|
    ensures url[|url| - |ImagesPath + imageName|..] == ImagesPath + imageName
  {
    var url := Origin(env) + ImagesPath + imageName;
    assert url == Origin(env) + (ImagesPath + imageName);
    url
  }

  /** Under one environment, distinct image names never share a URL: the
      image name can be read back from the URL. */
  lemma ImageNameRecoverable(env: Env, a: string, b: string)
    requires GetImageUrl(env, a) == GetImageUrl(env, b)
    ensures a == b
  {
    var prefix := Origin(env) + ImagesPath;
    assert GetImageUrl(env, a) == prefix + a;
    assert GetImageUrl(env, b) == prefix + b;
    assert (prefix + a)[|prefix|..] == a;
    assert (prefix + b)[|prefix|..] == b;
  }
}
